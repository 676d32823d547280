/** Counting the storage slots a batch really changes (types/src/storage_writes_deduplicator.rs),
    as a function of the logs. */
module DedupSpec {
  import opened Wrappers

  datatype LogType = ReadLog | InitialWrite | RepeatedWrite

  /** `rwFlag` tells writes from reads; a rollback log undoes a write, back to its read value. */
  datatype Log = Log(key: nat, readValue: nat, writtenValue: nat, rwFlag: bool, rollback: bool, logType: LogType) {
    function Effective(): nat {
      if rollback then readValue else writtenValue
    }

    predicate IsInitial() {
      logType == InitialWrite
    }
  }

  /** The counters are integers here, so that running below zero would show. */
  datatype State = State(initialValues: map<nat, nat>, modifiedKeys: set<nat>, initialWrites: int, repeatedWrites: int)

  const EMPTY: State := State(map[], {}, 0, 0)

  datatype UpdateItem = UpdateItem(key: nat, isInsertion: bool, isWriteInitial: bool)

  function InitialValue(s: State, log: Log): nat {
    if log.key in s.initialValues then s.initialValues[log.key] else log.readValue
  }

  /** The undo item of a log, if the log changes whether its key counts as modified. */
  function ItemOf(s: State, log: Log): Option<UpdateItem> {
    var before, now := log.key in s.modifiedKeys, InitialValue(s, log) != log.Effective();
    if before && !now then Some(UpdateItem(log.key, false, log.IsInitial()))
    else if !before && now then Some(UpdateItem(log.key, true, log.IsInitial()))
    else None
  }

  function AddTo(s: State, initial: bool, n: int): State {
    if initial then s.(initialWrites := s.initialWrites + n) else s.(repeatedWrites := s.repeatedWrites + n)
  }

  function Do(s: State, item: UpdateItem): State {
    if item.isInsertion then AddTo(s.(modifiedKeys := s.modifiedKeys + {item.key}), item.isWriteInitial, 1)
    else AddTo(s.(modifiedKeys := s.modifiedKeys - {item.key}), item.isWriteInitial, -1)
  }

  function Undo(s: State, item: UpdateItem): State {
    if item.isInsertion then AddTo(s.(modifiedKeys := s.modifiedKeys - {item.key}), item.isWriteInitial, -1)
    else AddTo(s.(modifiedKeys := s.modifiedKeys + {item.key}), item.isWriteInitial, 1)
  }

  function DoLog(s: State, log: Log): State {
    if !log.rwFlag then s
    else
      var s' := s.(initialValues := s.initialValues[log.key := InitialValue(s, log)]);
      match ItemOf(s, log)
      case None => s'
      case Some(item) => Do(s', item)
  }

  function DoLogs(s: State, logs: seq<Log>): State {
    if logs == [] then s else DoLog(DoLogs(s, logs[..|logs| - 1]), logs[|logs| - 1])
  }

  /** The undo log that `process_storage_logs` returns. */
  function Updates(s: State, logs: seq<Log>): seq<UpdateItem> {
    if logs == [] then []
    else
      var before, log := DoLogs(s, logs[..|logs| - 1]), logs[|logs| - 1];
      Updates(s, logs[..|logs| - 1])
      + (if log.rwFlag && ItemOf(before, log).Some? then [ItemOf(before, log).value] else [])
  }

  /** `rollback`: the items are undone last first. */
  function UndoAll(s: State, updates: seq<UpdateItem>): State
    decreases |updates|
  {
    if updates == [] then s else UndoAll(Undo(s, updates[|updates| - 1]), updates[..|updates| - 1])
  }

  // ---------------------------------------------------------------- Undo is exact

  lemma {:induction false} UndoLog(s: State, log: Log)
    requires log.rwFlag && ItemOf(s, log).Some?
    ensures Undo(DoLog(s, log), ItemOf(s, log).value) == s.(initialValues := DoLog(s, log).initialValues)
  {
    var k := log.key;
    if k in s.modifiedKeys {
      assert s.modifiedKeys - {k} + {k} == s.modifiedKeys;
    } else {
      assert s.modifiedKeys + {k} - {k} == s.modifiedKeys;
    }
  }

  lemma {:induction false} UndoIgnoresValues(s: State, values: map<nat, nat>, updates: seq<UpdateItem>)
    ensures UndoAll(s.(initialValues := values), updates) == UndoAll(s, updates).(initialValues := values)
    decreases |updates|
  {
    if updates != [] {
      UndoIgnoresValues(Undo(s, updates[|updates| - 1]), values, updates[..|updates| - 1]);
    }
  }

  /** Undoing what the logs did gives back everything except the recorded first reads, for any
      state and any logs. */
  lemma {:induction false} UndoIsExact(s: State, logs: seq<Log>)
    ensures UndoAll(DoLogs(s, logs), Updates(s, logs)) == s.(initialValues := DoLogs(s, logs).initialValues)
  {
    if logs != [] {
      var n := |logs| - 1;
      var before, log := DoLogs(s, logs[..n]), logs[n];
      UndoIsExact(s, logs[..n]);
      if log.rwFlag && ItemOf(before, log).Some? {
        var item := ItemOf(before, log).value;
        UndoLog(before, log);
        assert Updates(s, logs)[..|Updates(s, logs)| - 1] == Updates(s, logs[..n]);
        UndoIgnoresValues(before, DoLogs(s, logs).initialValues, Updates(s, logs[..n]));
      } else {
        UndoIgnoresValues(before, DoLogs(s, logs).initialValues, Updates(s, logs[..n]));
        assert Updates(s, logs) == Updates(s, logs[..n]);
        assert DoLogs(s, logs) == before.(initialValues := DoLogs(s, logs).initialValues);
      }
    }
  }

  lemma {:induction false} ValuesStay(s: State, logs: seq<Log>)
    ensures forall k :: k in s.initialValues ==>
              k in DoLogs(s, logs).initialValues && DoLogs(s, logs).initialValues[k] == s.initialValues[k]
  {
    if logs != [] {
      ValuesStay(s, logs[..|logs| - 1]);
    }
  }

  /** A prefix of logs that were tried out before finds all its first reads recorded. */
  lemma {:induction false} TryThenApplyPrefix(s: State, logs: seq<Log>, n: nat)
    requires n <= |logs|
    ensures var values := DoLogs(s, logs).initialValues;
            DoLogs(s.(initialValues := values), logs[..n]) == DoLogs(s, logs[..n]).(initialValues := values)
  {
    var values := DoLogs(s, logs).initialValues;
    if n > 0 {
      TryThenApplyPrefix(s, logs, n - 1);
      TakeNext(logs, n - 1);
      ValuesStay(DoLogs(s, logs[..n]), logs[n..]);
      DoLogsConcat(s, logs[..n], logs[n..]);
      assert logs[..n] + logs[n..] == logs;
      var log := logs[n - 1];
      if log.rwFlag {
        assert log.key in DoLogs(s, logs[..n]).initialValues;
        assert values == values[log.key := values[log.key]];
      }
    }
  }

  lemma {:induction false} DoLogsConcat(s: State, logs: seq<Log>, more: seq<Log>)
    ensures DoLogs(s, logs + more) == DoLogs(DoLogs(s, logs), more)
  {
    if more == [] {
      assert logs + more == logs;
    } else {
      var n := |more| - 1;
      assert (logs + more)[..|logs| + n] == logs + more[..n];
      DoLogsConcat(s, logs, more[..n]);
    }
  }

  /** Trying logs out, undoing them and applying them then leads to the same state as applying them
      at once, for every state and every list of logs. */
  lemma {:induction false} TryThenApply(s: State, logs: seq<Log>)
    ensures DoLogs(s.(initialValues := DoLogs(s, logs).initialValues), logs) == DoLogs(s, logs)
  {
    TryThenApplyPrefix(s, logs, |logs|);
    TakeAll(logs);
  }

  // ---------------------------------------------------------------- Writes that a revert undoes

  /** What one log does to its key and to the counter of its type: with the value it leaves compared
      to the first value read, a rollback leaving its read value and any other log its written one. */
  lemma LogInFull(s: State, log: Log)
    ensures !log.rwFlag ==> DoLog(s, log) == s
    ensures log.rwFlag ==>
              var first := if log.key in s.initialValues then s.initialValues[log.key] else log.readValue;
              var changed := if log.rollback then first != log.readValue else first != log.writtenValue;
              var more := if changed && log.key !in s.modifiedKeys then 1
                          else if !changed && log.key in s.modifiedKeys then -1 else 0;
              && DoLog(s, log).initialValues == s.initialValues[log.key := first]
              && DoLog(s, log).modifiedKeys == (if changed then s.modifiedKeys + {log.key}
                                                else s.modifiedKeys - {log.key})
              && DoLog(s, log).initialWrites == s.initialWrites + (if log.logType == InitialWrite then more else 0)
              && DoLog(s, log).repeatedWrites == s.repeatedWrites + (if log.logType == InitialWrite then 0 else more)
  {
  }

  /** What the state knows of the slot agrees with what the log read: the slot counts as modified
      exactly if the value read is not the first one. */
  predicate ReadsCurrent(s: State, log: Log) {
    if log.key in s.initialValues then log.key in s.modifiedKeys <==> s.initialValues[log.key] != log.readValue
    else log.key !in s.modifiedKeys
  }

  /** A write and its rollback leave keys and counters as they were exactly if the write had read
      the current value. */
  lemma {:induction false} RollbackUndoesWrite(s: State, w: Log)
    requires w.rwFlag && !w.rollback
    ensures var s' := DoLog(DoLog(s, w), w.(rollback := true));
            && (s'.modifiedKeys == s.modifiedKeys <==> ReadsCurrent(s, w))
            && (ReadsCurrent(s, w) ==>
                  s' == s.(initialValues := if w.key in s.initialValues then s.initialValues
                                            else s.initialValues[w.key := w.readValue]))
  {
    var back := w.(rollback := true);
    LogInFull(s, w);
    LogInFull(DoLog(s, w), back);
    hide DoLog;
    var s' := DoLog(DoLog(s, w), back);
    var first := if w.key in s.initialValues then s.initialValues[w.key] else w.readValue;
    assert w.key in s'.modifiedKeys <==> first != w.readValue;
    if w.key in s.initialValues {
      assert s.initialValues[w.key := first] == s.initialValues;
    }
    if ReadsCurrent(s, w) {
      assert s'.modifiedKeys == s.modifiedKeys;
    }
  }

  /** The rollback logs of a reverted call: the last write is undone first. */
  function RollbackLogs(writes: seq<Log>): seq<Log> {
    if writes == [] then []
    else [writes[|writes| - 1].(rollback := true)] + RollbackLogs(writes[..|writes| - 1])
  }

  lemma {:induction false} RollbackLogsOf(writes: seq<Log>)
    ensures |RollbackLogs(writes)| == |writes|
    ensures forall i :: 0 <= i < |writes| ==>
              RollbackLogs(writes)[i] == writes[|writes| - 1 - i].(rollback := true)
  {
    if writes != [] {
      RollbackLogsOf(writes[..|writes| - 1]);
    }
  }

  /** Once the first values of all keys are recorded, the values of other keys do not matter. */
  lemma {:induction false} RecordedMatter(s: State, values: map<nat, nat>, logs: seq<Log>)
    requires forall i :: 0 <= i < |logs| && logs[i].rwFlag ==>
               logs[i].key in s.initialValues && logs[i].key in values
               && s.initialValues[logs[i].key] == values[logs[i].key]
    ensures DoLogs(s.(initialValues := values), logs) == DoLogs(s, logs).(initialValues := values)
    ensures DoLogs(s, logs).initialValues == s.initialValues
  {
    if logs != [] {
      var n := |logs| - 1;
      RecordedMatter(s, values, logs[..n]);
      LogInFull(DoLogs(s, logs[..n]), logs[n]);
      LogInFull(DoLogs(s.(initialValues := values), logs[..n]), logs[n]);
      hide DoLog;
      if logs[n].rwFlag {
        assert values[logs[n].key := values[logs[n].key]] == values;
        assert s.initialValues[logs[n].key := values[logs[n].key]] == s.initialValues;
      }
    }
  }

  lemma {:induction false} KeysRecorded(s: State, logs: seq<Log>)
    ensures forall i :: 0 <= i < |logs| && logs[i].rwFlag ==> logs[i].key in DoLogs(s, logs).initialValues
  {
    if logs != [] {
      KeysRecorded(s, logs[..|logs| - 1]);
    }
  }

  lemma NothingWritten(s: State, writes: seq<Log>)
    requires writes == []
    ensures DoLogs(s, writes) == s && DoLogs(s, writes + RollbackLogs(writes)) == s
  {
    assert writes + RollbackLogs(writes) == writes;
  }

  lemma OneLog(s: State, log: Log)
    ensures DoLogs(s, [log]) == DoLog(s, log)
  {
    assert [log][..0] == [];
  }

  lemma LastRollback(init: seq<Log>, w: Log)
    ensures RollbackLogs(init + [w]) == [w.(rollback := true)] + RollbackLogs(init)
  {
    assert (init + [w])[..|init|] == init;
  }

  lemma {:induction false} RollbacksRecorded(s: State, init: seq<Log>, values: map<nat, nat>)
    requires forall i :: 0 <= i < |init| ==> init[i].rwFlag
    requires forall k :: k in DoLogs(s, init).initialValues ==>
               k in values && values[k] == DoLogs(s, init).initialValues[k]
    ensures DoLogs(DoLogs(s, init).(initialValues := values), RollbackLogs(init))
         == DoLogs(DoLogs(s, init), RollbackLogs(init)).(initialValues := values)
  {
    KeysRecorded(s, init);
    RollbackLogsOf(init);
    RecordedMatter(DoLogs(s, init), values, RollbackLogs(init));
  }

  lemma {:induction false} RevertedLast(s: State, init: seq<Log>, w: Log)
    requires (forall i :: 0 <= i < |init| ==> init[i].rwFlag) && w.rwFlag && !w.rollback
    requires ReadsCurrent(DoLogs(s, init), w)
    ensures DoLogs(s, init + [w] + RollbackLogs(init + [w]))
         == DoLogs(DoLogs(s, init), RollbackLogs(init)).(initialValues := DoLogs(s, init + [w]).initialValues)
  {
    hide DoLogs, DoLog, RollbackLogs, ReadsCurrent;
    var before, back, rest := DoLogs(s, init), w.(rollback := true), RollbackLogs(init);
    var after := DoLog(before, w);
    OneLog(before, w);
    DoLogsConcat(s, init, [w]);
    LastRollback(init, w);
    OneLog(after, back);
    DoLogsConcat(s, init + [w], [back] + rest);
    DoLogsConcat(after, [back], rest);
    LogInFull(before, w);
    RollbackUndoesWrite(before, w);
    assert DoLog(after, back) == before.(initialValues := after.initialValues);
    RollbacksRecorded(s, init, after.initialValues);
  }

  /** A reverted call leaves keys and counters as they were: if each of its writes read the current
      value, then the writes followed by their rollbacks only record first values. */
  lemma {:induction false} RevertedCall(s: State, writes: seq<Log>)
    requires forall i :: 0 <= i < |writes| ==>
               writes[i].rwFlag && !writes[i].rollback && ReadsCurrent(DoLogs(s, writes[..i]), writes[i])
    ensures DoLogs(s, writes + RollbackLogs(writes)) == s.(initialValues := DoLogs(s, writes).initialValues)
  {
    hide DoLog, DoLogs, RollbackLogs;
    if writes == [] {
      NothingWritten(s, writes);
    } else {
      var n := |writes| - 1;
      var w, init, rest := writes[n], writes[..n], RollbackLogs(writes[..n]);
      forall i | 0 <= i < n ensures init[..i] == writes[..i] {
      }
      RevertedCall(s, init);
      DoLogsConcat(s, init, rest);
      RevertedLast(s, init, w);
      assert writes == init + [w];
    }
  }

  /** A write that is rolled back counts nothing, one that is not counts once. */
  lemma RolledBackWrite()
    ensures var w := Log(1, 5, 6, true, false, InitialWrite);
            && DoLogs(EMPTY, [w]) == State(map[1 := 5], {1}, 1, 0)
            && DoLogs(EMPTY, [w, w.(rollback := true)]) == State(map[1 := 5], {}, 0, 0)
            && DoLogs(EMPTY, [w.(logType := RepeatedWrite)]) == State(map[1 := 5], {1}, 0, 1)
            && DoLogs(EMPTY, [w.(rwFlag := false)]) == State(map[], {}, 0, 0)
  {
    var w := Log(1, 5, 6, true, false, InitialWrite);
    assert [w, w.(rollback := true)][..1] == [w] && [w][..0] == [];
    assert DoLogs(EMPTY, [w]) == State(map[1 := 5], {1}, 1, 0);
  }

  // ---------------------------------------------------------------- What the state means

  ghost predicate Touched(logs: seq<Log>, k: nat) {
    exists i :: 0 <= i < |logs| && logs[i].rwFlag && logs[i].key == k
  }

  /** The value the last write log of a key leaves; `base` without one. */
  ghost function FinalValue(logs: seq<Log>, k: nat, base: nat): nat {
    if logs == [] then base
    else
      var log := logs[|logs| - 1];
      if log.rwFlag && log.key == k then log.Effective() else FinalValue(logs[..|logs| - 1], k, base)
  }

  /** The value the first write log of a key reads. */
  ghost function FirstRead(logs: seq<Log>, k: nat): Option<nat> {
    if logs == [] then None
    else
      var first := FirstRead(logs[..|logs| - 1], k);
      if first.Some? then first
      else if logs[|logs| - 1].rwFlag && logs[|logs| - 1].key == k then Some(logs[|logs| - 1].readValue)
      else None
  }

  /** `seen` are all logs processed so far, `kept` those not rolled back again: the recorded values
      are the first reads of what was seen, and modified are exactly the keys whose last kept
      value differs from their recorded value. */
  ghost predicate Means(s: State, seen: seq<Log>, kept: seq<Log>) {
    && (forall k :: k in s.initialValues <==> FirstRead(seen, k).Some?)
    && (forall k :: k in s.initialValues ==> FirstRead(seen, k) == Some(s.initialValues[k]))
    && (forall k :: Touched(kept, k) ==> k in s.initialValues)
    && (forall k :: k in s.modifiedKeys <==>
          k in s.initialValues && FinalValue(kept, k, s.initialValues[k]) != s.initialValues[k])
  }

  lemma {:induction false} LastLog(logs: seq<Log>, log: Log, k: nat, base: nat)
    ensures FinalValue(logs + [log], k, base)
         == if log.rwFlag && log.key == k then log.Effective() else FinalValue(logs, k, base)
    ensures FirstRead(logs + [log], k) ==
              if FirstRead(logs, k).Some? then FirstRead(logs, k)
              else if log.rwFlag && log.key == k then Some(log.readValue) else None
    ensures Touched(logs + [log], k) <==> Touched(logs, k) || (log.rwFlag && log.key == k)
  {
    var all := logs + [log];
    assert all[..|logs|] == logs;
    if Touched(logs, k) {
      var i :| 0 <= i < |logs| && logs[i].rwFlag && logs[i].key == k;
      assert all[i] == logs[i];
    }
    if Touched(all, k) {
      var i :| 0 <= i < |all| && all[i].rwFlag && all[i].key == k;
      assert i < |logs| ==> logs[i] == all[i];
    }
    assert all[|logs|] == log;
  }

  lemma {:induction false} FinalOfUntouched(logs: seq<Log>, k: nat, base: nat)
    requires !Touched(logs, k)
    ensures FinalValue(logs, k, base) == base
  {
    if logs != [] {
      var n := |logs| - 1;
      assert logs == logs[..n] + [logs[n]];
      LastLog(logs[..n], logs[n], k, base);
      FinalOfUntouched(logs[..n], k, base);
    }
  }

  ghost predicate KeyMeans(s: State, seen: seq<Log>, kept: seq<Log>, k: nat) {
    && (k in s.initialValues <==> FirstRead(seen, k).Some?)
    && (k in s.initialValues ==> FirstRead(seen, k) == Some(s.initialValues[k]))
    && (Touched(kept, k) ==> k in s.initialValues)
    && (k in s.modifiedKeys <==> k in s.initialValues && FinalValue(kept, k, s.initialValues[k]) != s.initialValues[k])
  }

  lemma {:induction false} DoLogKeyMeans(s: State, seen: seq<Log>, kept: seq<Log>, log: Log, k: nat)
    requires KeyMeans(s, seen, kept, k)
    ensures KeyMeans(DoLog(s, log), seen + [log], kept + [log], k)
  {
    hide Touched, FirstRead, FinalValue;
    var s' := DoLog(s, log);
    assert k != log.key ==> (k in s'.modifiedKeys <==> k in s.modifiedKeys);
    LastLog(seen, log, k, 0);
    LastLog(kept, log, k, if k in s'.initialValues then s'.initialValues[k] else 0);
    if !Touched(kept, k) && k in s'.initialValues {
      FinalOfUntouched(kept, k, s'.initialValues[k]);
    }
  }

  lemma {:induction false} DoLogMeans(s: State, seen: seq<Log>, kept: seq<Log>, log: Log)
    requires Means(s, seen, kept)
    ensures Means(DoLog(s, log), seen + [log], kept + [log])
  {
    forall k: nat ensures KeyMeans(DoLog(s, log), seen + [log], kept + [log], k) {
      DoLogKeyMeans(s, seen, kept, log, k);
    }
  }

  /** Processing logs, and keeping them. */
  lemma {:induction false} DoLogsMeans(s: State, seen: seq<Log>, kept: seq<Log>, logs: seq<Log>)
    requires Means(s, seen, kept)
    ensures Means(DoLogs(s, logs), seen + logs, kept + logs)
  {
    if logs == [] {
      assert seen + logs == seen && kept + logs == kept;
    } else {
      var n := |logs| - 1;
      DoLogsMeans(s, seen, kept, logs[..n]);
      DoLogMeans(DoLogs(s, logs[..n]), seen + logs[..n], kept + logs[..n], logs[n]);
      assert seen + logs[..n] + [logs[n]] == seen + logs && kept + logs[..n] + [logs[n]] == kept + logs;
    }
  }

  /** Processing logs, and undoing them: they stay seen, but are not kept. */
  lemma {:induction false} UndoneMeans(s: State, seen: seq<Log>, kept: seq<Log>, logs: seq<Log>)
    requires Means(s, seen, kept)
    ensures Means(s.(initialValues := DoLogs(s, logs).initialValues), seen + logs, kept)
  {
    DoLogsMeans(s, seen, kept, logs);
    ValuesStay(s, logs);
    var s' := s.(initialValues := DoLogs(s, logs).initialValues);
    forall k | k in s'.initialValues && k !in s.initialValues
      ensures FinalValue(kept, k, s'.initialValues[k]) == s'.initialValues[k]
    {
      FinalOfUntouched(kept, k, s'.initialValues[k]);
    }
  }

  /** If every first read shows the storage value of its key, modified are exactly the keys whose
      storage value the kept logs change, whatever was processed and undone in between. */
  lemma {:induction false} ModifiedAreChanged(s: State, seen: seq<Log>, kept: seq<Log>, base: nat -> nat, k: nat)
    requires Means(s, seen, kept)
    requires FirstRead(seen, k).Some? ==> FirstRead(seen, k).value == base(k)
    ensures k in s.modifiedKeys <==> FinalValue(kept, k, base(k)) != base(k)
  {
    if k !in s.initialValues {
      FinalOfUntouched(kept, k, base(k));
    }
  }

  // ---------------------------------------------------------------- The counters

  /** For every modified key, whether the log that made it so was an initial write. */
  function Recorded(s: State, kinds: map<nat, bool>, log: Log): map<nat, bool> {
    if !log.rwFlag then kinds
    else
      match ItemOf(s, log)
      case None => kinds
      case Some(item) => if item.isInsertion then kinds[item.key := item.isWriteInitial] else kinds - {item.key}
  }

  function OfKind(kinds: map<nat, bool>, initial: bool): set<nat> {
    set k | k in kinds && kinds[k] == initial
  }

  /** The counters are the numbers of modified keys of either kind. */
  ghost predicate CountsRight(s: State, kinds: map<nat, bool>) {
    && kinds.Keys == s.modifiedKeys
    && s.initialWrites == |OfKind(kinds, true)| && s.repeatedWrites == |OfKind(kinds, false)|
  }

  /** The log takes a key out under another type than the one it was put in with. */
  predicate Mismatch(s: State, kinds: map<nat, bool>, log: Log) {
    log.rwFlag && log.key in kinds && ItemOf(s, log).Some? && kinds[log.key] != log.IsInitial()
  }

  lemma {:induction false} KindsAdd(kinds: map<nat, bool>, k: nat, initial: bool)
    requires k !in kinds
    ensures |OfKind(kinds[k := initial], initial)| == |OfKind(kinds, initial)| + 1
    ensures |OfKind(kinds[k := initial], !initial)| == |OfKind(kinds, !initial)|
  {
    assert OfKind(kinds[k := initial], initial) == OfKind(kinds, initial) + {k};
    assert OfKind(kinds[k := initial], !initial) == OfKind(kinds, !initial);
  }

  lemma {:induction false} KindsRemove(kinds: map<nat, bool>, k: nat)
    requires k in kinds
    ensures |OfKind(kinds - {k}, kinds[k])| == |OfKind(kinds, kinds[k])| - 1
    ensures |OfKind(kinds - {k}, !kinds[k])| == |OfKind(kinds, !kinds[k])|
  {
    assert OfKind(kinds - {k}, kinds[k]) == OfKind(kinds, kinds[k]) - {k} && k in OfKind(kinds, kinds[k]);
    assert OfKind(kinds - {k}, !kinds[k]) == OfKind(kinds, !kinds[k]);
  }

  lemma {:induction false} CountsAdd(s: State, kinds: map<nat, bool>, k: nat, initial: bool)
    requires CountsRight(s, kinds) && k !in kinds
    ensures CountsRight(Do(s, UpdateItem(k, true, initial)), kinds[k := initial])
  {
    KindsAdd(kinds, k, initial);
  }

  lemma {:induction false} CountsRemove(s: State, kinds: map<nat, bool>, k: nat, initial: bool)
    requires CountsRight(s, kinds) && k in kinds
    ensures CountsRight(Do(s, UpdateItem(k, false, initial)), kinds - {k}) <==> initial == kinds[k]
  {
    KindsRemove(kinds, k);
  }

  /** A log keeps the counters right exactly if it is no mismatch. */
  lemma {:induction false} CountsStep(s: State, kinds: map<nat, bool>, log: Log)
    requires CountsRight(s, kinds)
    ensures CountsRight(DoLog(s, log), Recorded(s, kinds, log)) <==> !Mismatch(s, kinds, log)
  {
    if log.rwFlag && ItemOf(s, log).Some? {
      var s' := s.(initialValues := s.initialValues[log.key := InitialValue(s, log)]);
      if log.key in kinds {
        CountsRemove(s', kinds, log.key, log.IsInitial());
      } else {
        CountsAdd(s', kinds, log.key, log.IsInitial());
      }
    }
  }

  /** From right counters a log takes one of them below zero exactly if it takes a key out under a
      type that no modified key was put in with. */
  lemma {:induction false} UnderflowsExactly(s: State, kinds: map<nat, bool>, log: Log)
    requires CountsRight(s, kinds)
    ensures DoLog(s, log).initialWrites < 0 || DoLog(s, log).repeatedWrites < 0
            <==> Mismatch(s, kinds, log) && OfKind(kinds, log.IsInitial()) == {}
  {
    if log.rwFlag && log.key in kinds && ItemOf(s, log).Some? {
      assert log.key in OfKind(kinds, kinds[log.key]);
    }
  }

  lemma CountersStep(s: State, log: Log)
    requires s.initialWrites + s.repeatedWrites == |s.modifiedKeys|
    ensures DoLog(s, log).initialWrites + DoLog(s, log).repeatedWrites == |DoLog(s, log).modifiedKeys|
  {
  }

  /** Whatever the types of the logs, the counters together are the number of modified keys. */
  lemma {:induction false} CountersTogether(s: State, logs: seq<Log>)
    requires s.initialWrites + s.repeatedWrites == |s.modifiedKeys|
    ensures DoLogs(s, logs).initialWrites + DoLogs(s, logs).repeatedWrites == |DoLogs(s, logs).modifiedKeys|
  {
    hide DoLog;
    if logs != [] {
      CountersTogether(s, logs[..|logs| - 1]);
      CountersStep(DoLogs(s, logs[..|logs| - 1]), logs[|logs| - 1]);
    }
  }

  /** Two logs that change a slot and change it back, under different types, take the second
      counter below zero. */
  lemma MismatchUnderflows()
    ensures var change, back := Log(1, 5, 6, true, false, InitialWrite), Log(1, 6, 5, true, false, RepeatedWrite);
            DoLogs(EMPTY, [change, back]) == State(map[1 := 5], {}, 1, -1)
  {
    var change, back := Log(1, 5, 6, true, false, InitialWrite), Log(1, 6, 5, true, false, RepeatedWrite);
    assert [change, back][..1] == [change] && [change][..0] == [];
    assert DoLogs(EMPTY, [change]) == State(map[1 := 5], {1}, 1, 0);
  }

  /** All write logs of a key have the type that `kindOf` gives the key. */
  ghost predicate Uniform(kindOf: nat -> bool, logs: seq<Log>) {
    forall i :: 0 <= i < |logs| && logs[i].rwFlag ==> logs[i].IsInitial() == kindOf(logs[i].key)
  }

  /** The counters of a state whose keys all have a type of their own. */
  ghost predicate Counted(kindOf: nat -> bool, s: State) {
    CountsRight(s, map k | k in s.modifiedKeys :: kindOf(k))
  }

  lemma {:induction false} UniformLogCounts(kindOf: nat -> bool, s: State, log: Log)
    requires Counted(kindOf, s) && (log.rwFlag ==> log.IsInitial() == kindOf(log.key))
    ensures Counted(kindOf, DoLog(s, log))
  {
    var kinds := map k | k in s.modifiedKeys :: kindOf(k);
    CountsStep(s, kinds, log);
    assert Recorded(s, kinds, log) == map k | k in DoLog(s, log).modifiedKeys :: kindOf(k);
  }

  /** With one type per key, the counters stay the numbers of modified keys of either type. */
  lemma {:induction false} UniformLogsCount(kindOf: nat -> bool, s: State, logs: seq<Log>)
    requires Counted(kindOf, s) && Uniform(kindOf, logs)
    ensures Counted(kindOf, DoLogs(s, logs))
  {
    if logs != [] {
      UniformLogsCount(kindOf, s, logs[..|logs| - 1]);
      UniformLogCounts(kindOf, DoLogs(s, logs[..|logs| - 1]), logs[|logs| - 1]);
    }
  }

  /** A decrement is always made on a positive counter. */
  lemma {:induction false} DecrementIsSafe(kindOf: nat -> bool, s: State, k: nat)
    requires Counted(kindOf, s) && k in s.modifiedKeys
    ensures (if kindOf(k) then s.initialWrites else s.repeatedWrites) > 0
  {
    var kinds := map j | j in s.modifiedKeys :: kindOf(j);
    assert k in OfKind(kinds, kindOf(k));
  }
}
