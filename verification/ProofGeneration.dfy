/** The table of batches that wait for a proof (dal/src/proof_generation_dal.rs). Every method is
    one SQL statement; `now` is the time of its transaction. */
module ProofGeneration {
  import opened Wrappers

  datatype Status = ReadyToBeProven | PickedByProver | Generated | Skipped

  datatype Row = Row(status: Status, dataUrl: string, proofUrl: Option<string>, takenAt: Option<nat>)

  type Table = map<nat, Row>

  datatype Call =
    | GetNext(timeout: nat)
    | Insert(batch: nat, dataUrl: string)
    | MarkSkipped(batch: nat)
    | SaveProof(batch: nat, proofUrl: string)

  datatype Answer = Handed(next: Option<nat>) | Done | RowNotFound

  datatype Event = Event(now: nat, call: Call, answer: Answer)

  /** Ready, or taken longer ago than the timeout. A missing time compares as false. */
  predicate Eligible(row: Row, now: nat, timeout: nat) {
    || row.status.ReadyToBeProven?
    || (row.status.PickedByProver? && row.takenAt.Some? && row.takenAt.value + timeout < now)
  }

  ghost predicate IsLowest(t: Table, now: nat, timeout: nat, r: Option<nat>) {
    && (r.Some? ==> r.value in t && Eligible(t[r.value], now, timeout))
    && forall b :: b in t && Eligible(t[b], now, timeout) ==> r.Some? && r.value <= b
  }

  /** What a statement answers and leaves in the table. */
  ghost predicate Effect(t: Table, e: Event, t': Table) {
    match e.call
    case GetNext(timeout) =>
      && e.answer.Handed? && IsLowest(t, e.now, timeout, e.answer.next)
      && t' == if e.answer.next.None? then t
               else t[e.answer.next.value := t[e.answer.next.value].(status := PickedByProver, takenAt := Some(e.now))]
    case Insert(b, url) =>
      e.answer.Done? && t' == if b in t then t else t[b := Row(ReadyToBeProven, url, None, None)]
    case MarkSkipped(b) =>
      && e.answer == (if b in t then Done else RowNotFound)
      && t' == if b in t then t[b := t[b].(status := Skipped)] else t
    case SaveProof(b, url) =>
      && e.answer == (if b in t then Done else RowNotFound)
      && t' == if b in t then t[b := t[b].(status := Generated, proofUrl := Some(url))] else t
  }

  /** The other statements, row by row; a batch that is not there is only added by an insert. */
  lemma RowsAfter(t: Table, e: Event, t': Table, b: nat)
    requires Effect(t, e, t') && !e.call.GetNext?
    ensures b in t' <==> b in t || (e.call.Insert? && e.call.batch == b)
    ensures b in t' && b !in t ==> t'[b] == Row(ReadyToBeProven, e.call.dataUrl, None, None)
    ensures b in t && (e.call.Insert? || e.call.batch != b) ==> t'[b] == t[b]
    ensures b in t && e.call == MarkSkipped(b) ==> t'[b] == Row(Skipped, t[b].dataUrl, t[b].proofUrl, t[b].takenAt)
    ensures b in t && e.call.SaveProof? && e.call.batch == b ==>
              t'[b] == Row(Generated, t[b].dataUrl, Some(e.call.proofUrl), t[b].takenAt)
  {
  }

  class ProofGenerationDal {
    var table: Table

    constructor ()
      ensures table == map[]
    {
      table := map[];
    }

    method GetNextBlockToBeProven(now: nat, timeout: nat) returns (r: Option<nat>)
      modifies this
      ensures Effect(old(table), Event(now, GetNext(timeout), Handed(r)), table)
      ensures r.None? ==> table == old(table)
      ensures r.Some? ==>
                && r.value in old(table) && var row := old(table)[r.value];
                && (row.status == PickedByProver && row.takenAt.Some? ==> row.takenAt.value + timeout < now)
                && (row.status == ReadyToBeProven || (row.status == PickedByProver && row.takenAt.Some?))
                && table == old(table)[r.value := Row(PickedByProver, row.dataUrl, row.proofUrl, Some(now))]
      ensures forall b | b in old(table) :: var row := old(table)[b];
                && (row.status == ReadyToBeProven ==> r.Some? && r.value <= b)
                && (row.status == PickedByProver && row.takenAt.Some? && row.takenAt.value + timeout < now ==>
                      r.Some? && r.value <= b)
    {
      r := None;
      var rest := table.Keys;
      while rest != {}
        invariant rest <= table.Keys
        invariant r.Some? ==> r.value in table && Eligible(table[r.value], now, timeout)
        invariant forall b :: b in table.Keys - rest && Eligible(table[b], now, timeout) ==> r.Some? && r.value <= b
      {
        var b :| b in rest;
        if Eligible(table[b], now, timeout) && (r.None? || b < r.value) {
          r := Some(b);
        }
        rest := rest - {b};
      }
      if r.Some? {
        table := table[r.value := table[r.value].(status := PickedByProver, takenAt := Some(now))];
      }
    }

    method InsertProofGenerationDetails(now: nat, batch: nat, dataUrl: string)
      modifies this
      ensures Effect(old(table), Event(now, Insert(batch, dataUrl), Done), table)
    {
      if batch !in table {
        table := table[batch := Row(ReadyToBeProven, dataUrl, None, None)];
      }
    }

    method MarkProofGenerationJobAsSkipped(now: nat, batch: nat) returns (r: Answer)
      modifies this
      ensures Effect(old(table), Event(now, MarkSkipped(batch), r), table)
    {
      if batch !in table {
        return RowNotFound;
      }
      table := table[batch := table[batch].(status := Skipped)];
      r := Done;
    }

    method SaveProofArtifactsMetadata(now: nat, batch: nat, proofUrl: string) returns (r: Answer)
      modifies this
      ensures Effect(old(table), Event(now, SaveProof(batch, proofUrl), r), table)
    {
      if batch !in table {
        return RowNotFound;
      }
      table := table[batch := table[batch].(status := Generated, proofUrl := Some(proofUrl))];
      r := Done;
    }
  }

  // ---------------------------------------------------------------- Runs

  ghost predicate EffectAt(states: seq<Table>, events: seq<Event>, i: nat)
    requires |states| == |events| + 1 && i < |events|
  {
    Effect(states[i], events[i], states[i + 1])
  }

  /** Statements of any number of workers, in the order in which they take effect, with a clock
      that does not go back. */
  ghost predicate IsRun(states: seq<Table>, events: seq<Event>) {
    && |states| == |events| + 1 && states[0] == map[]
    && (forall i: nat :: i < |events| ==> EffectAt(states, events, i))
    && (forall i, j :: 0 <= i <= j < |events| ==> events[i].now <= events[j].now)
  }

  predicate HandsOut(e: Event, b: nat) {
    e.answer == Handed(Some(b))
  }

  predicate Finished(t: Table, b: nat) {
    b in t && (t[b].status.Generated? || t[b].status.Skipped?)
  }

  lemma {:induction false} FinishedStays(states: seq<Table>, events: seq<Event>, b: nat, i: nat, j: nat)
    requires IsRun(states, events) && i <= j <= |events| && Finished(states[i], b)
    ensures Finished(states[j], b)
    decreases j
  {
    if i < j {
      FinishedStays(states, events, b, i, j - 1);
      assert EffectAt(states, events, j - 1);
    }
  }

  /** A batch that is generated or skipped at some time is never handed out from then on. */
  lemma {:induction false} FinishedIsNotHandedOut(states: seq<Table>, events: seq<Event>, b: nat, i: nat, j: nat)
    requires IsRun(states, events) && i <= j < |events|
    requires b in states[i] && (states[i][b].status == Generated || states[i][b].status == Skipped)
    ensures events[j].answer != Handed(Some(b))
  {
    FinishedStays(states, events, b, i, j);
    assert EffectAt(states, events, j);
  }

  /** The time in a row is that of the last time the batch was handed out. */
  ghost predicate TakenSince(t: Table, b: nat, time: nat) {
    b in t && !t[b].status.ReadyToBeProven? && t[b].takenAt.Some? && t[b].takenAt.value >= time
  }

  lemma {:induction false} TakenStays(states: seq<Table>, events: seq<Event>, b: nat, i: nat, j: nat)
    requires IsRun(states, events) && i < j <= |events| && HandsOut(events[i], b)
    ensures TakenSince(states[j], b, events[i].now)
    decreases j
  {
    assert EffectAt(states, events, j - 1);
    if i < j - 1 {
      TakenStays(states, events, b, i, j - 1);
    }
  }

  /** Two times a batch is handed out are further apart than the timeout of the second request. */
  lemma {:induction false} HandOutsAreApart(states: seq<Table>, events: seq<Event>, b: nat, i: nat, j: nat)
    requires IsRun(states, events) && i < j < |events|
    requires events[i].answer == Handed(Some(b)) && events[j].answer == Handed(Some(b))
    ensures events[j].call.GetNext? && events[i].now + events[j].call.timeout < events[j].now
  {
    TakenStays(states, events, b, i, j);
    assert EffectAt(states, events, j);
  }

  /** Rows and events agree: a waiting batch has not been handed out, and a picked one carries a
      time at which it was. */
  lemma {:induction false} RowsTellEvents(states: seq<Table>, events: seq<Event>, b: nat, n: nat)
    requires IsRun(states, events) && n <= |events|
    ensures b in states[n] && states[n][b].status.PickedByProver? ==>
              && states[n][b].takenAt.Some?
              && exists i: nat :: i < n && HandsOut(events[i], b) && events[i].now == states[n][b].takenAt.value
  {
    if n > 0 {
      RowsTellEvents(states, events, b, n - 1);
      assert EffectAt(states, events, n - 1);
      if b in states[n] && states[n][b].status.PickedByProver? && HandsOut(events[n - 1], b) {
        assert events[n - 1].now == states[n][b].takenAt.value;
      }
    }
  }

  /** No batch is forgotten: as long as it is not finished and was not handed out within the
      timeout, a request is answered with this batch or a lower one. */
  lemma {:induction false} NoBatchIsForgotten(states: seq<Table>, events: seq<Event>, b: nat, n: nat)
    requires IsRun(states, events) && n < |events| && events[n].call.GetNext?
    requires b in states[n] && states[n][b].status != Generated && states[n][b].status != Skipped
    requires forall i: nat :: i < n && events[i].answer == Handed(Some(b)) ==>
               events[i].now + events[n].call.timeout < events[n].now
    ensures events[n].answer.Handed? && events[n].answer.next.Some? && events[n].answer.next.value <= b
  {
    assert EffectAt(states, events, n);
    RowsTellEvents(states, events, b, n);
    assert Eligible(states[n][b], events[n].now, events[n].call.timeout);
  }

  /** A batch that has been inserted stays in the table with the data it was inserted with first. */
  lemma {:induction false} InsertedStays(states: seq<Table>, events: seq<Event>, b: nat, i: nat, j: nat)
    requires IsRun(states, events) && i <= j <= |events| && b in states[i]
    ensures b in states[j] && states[j][b].dataUrl == states[i][b].dataUrl
    decreases j
  {
    if i < j {
      InsertedStays(states, events, b, i, j - 1);
      assert EffectAt(states, events, j - 1);
    }
  }

  ghost predicate InsertedBefore(events: seq<Event>, b: nat, n: nat)
    requires n <= |events|
  {
    exists i: nat :: i < n && events[i].call.Insert? && events[i].call.batch == b
  }

  /** The table knows exactly the batches that were inserted. */
  lemma {:induction false} KnownIffInserted(states: seq<Table>, events: seq<Event>, b: nat, n: nat)
    requires IsRun(states, events) && n <= |events|
    ensures b in states[n] <==> InsertedBefore(events, b, n)
  {
    if n > 0 {
      KnownIffInserted(states, events, b, n - 1);
      assert EffectAt(states, events, n - 1);
      if InsertedBefore(events, b, n - 1) {
        var i: nat :| i < n - 1 && events[i].call.Insert? && events[i].call.batch == b;
        assert i < n;
      }
    }
  }

  /** Skipping and saving a proof fail exactly for batches that were never inserted. */
  lemma {:induction false} UnknownIsAnError(states: seq<Table>, events: seq<Event>, n: nat)
    requires IsRun(states, events) && n < |events| && (events[n].call.MarkSkipped? || events[n].call.SaveProof?)
    ensures events[n].answer == if InsertedBefore(events, events[n].call.batch, n) then Done else RowNotFound
  {
    KnownIffInserted(states, events, events[n].call.batch, n);
    assert EffectAt(states, events, n);
  }

  /** The last decision on a batch stands: it is skipped or generated with that proof, whatever else
      happens. */
  lemma {:induction false} LastDecisionStands(states: seq<Table>, events: seq<Event>, b: nat, i: nat, j: nat)
    requires IsRun(states, events) && i < j <= |events| && b in states[i]
    requires (events[i].call.MarkSkipped? || events[i].call.SaveProof?) && events[i].call.batch == b
    requires forall n: nat :: i < n < j && (events[n].call.MarkSkipped? || events[n].call.SaveProof?) ==>
               events[n].call.batch != b
    ensures b in states[j]
    ensures events[i].call.MarkSkipped? ==>
              states[j][b].status.Skipped? && states[j][b].proofUrl == states[i][b].proofUrl
    ensures events[i].call.SaveProof? ==>
              states[j][b].status.Generated? && states[j][b].proofUrl == Some(events[i].call.proofUrl)
    decreases j
  {
    assert EffectAt(states, events, j - 1);
    if i < j - 1 {
      LastDecisionStands(states, events, b, i, j - 1);
    }
  }
}
