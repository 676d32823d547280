/** The deduplicator as an object (types/src/storage_writes_deduplicator.rs). */
module Deduplicator {
  import opened Wrappers
  import opened DedupSpec

  datatype Metrics = Metrics(initialStorageWrites: int, repeatedStorageWrites: int)

  /** The last undo item of the first `j` logs comes from log `i`; the logs between change no key. */
  lemma {:induction false} LastItem(s: State, logs: seq<Log>, j: nat) returns (i: nat)
    requires j <= |logs| && Updates(s, logs[..j]) != []
    ensures i < j && logs[i].rwFlag
    ensures ItemOf(DoLogs(s, logs[..i]), logs[i]) == Some(Updates(s, logs[..j])[|Updates(s, logs[..j])| - 1])
    ensures Updates(s, logs[..i]) == Updates(s, logs[..j])[..|Updates(s, logs[..j])| - 1]
    ensures DoLogs(s, logs[..j]) == DoLogs(s, logs[..i + 1]).(initialValues := DoLogs(s, logs[..j]).initialValues)
  {
    assert logs[..j][..j - 1] == logs[..j - 1];
    var before, log := DoLogs(s, logs[..j - 1]), logs[j - 1];
    if log.rwFlag && ItemOf(before, log).Some? {
      i := j - 1;
    } else {
      assert Updates(s, logs[..j]) == Updates(s, logs[..j - 1]);
      i := LastItem(s, logs, j - 1);
    }
  }

  /** Undoing the last item of the first `j` logs steps back to the state before its log. */
  lemma {:induction false} LastUndone(s: State, logs: seq<Log>, j: nat, values: map<nat, nat>) returns (i: nat)
    requires j <= |logs| && Updates(s, logs[..j]) != []
    ensures i < j && Updates(s, logs[..i]) == Updates(s, logs[..j])[..|Updates(s, logs[..j])| - 1]
    ensures Undo(DoLogs(s, logs[..j]).(initialValues := values), Updates(s, logs[..j])[|Updates(s, logs[..j])| - 1])
         == DoLogs(s, logs[..i]).(initialValues := values)
  {
    i := LastItem(s, logs, j);
    assert logs[..i + 1][..i] == logs[..i];
    UndoLog(DoLogs(s, logs[..i]), logs[i]);
  }

  class StorageWritesDeduplicator {
    var initialValues: map<nat, nat>
    var modifiedKeys: set<nat>
    /** Integers, so that a decrement below zero would show. */
    var initialWrites: int
    var repeatedWrites: int

    /** All logs processed, and those not rolled back. */
    ghost var seen: seq<Log>
    ghost var kept: seq<Log>

    ghost function View(): State
      reads this
    {
      State(initialValues, modifiedKeys, initialWrites, repeatedWrites)
    }

    ghost predicate Valid()
      reads this
    {
      Means(View(), seen, kept)
    }

    constructor ()
      ensures Valid() && View() == EMPTY && seen == [] && kept == []
    {
      initialValues, modifiedKeys, initialWrites, repeatedWrites := map[], {}, 0, 0;
      seen, kept := [], [];
    }

    method GetMetrics() returns (m: Metrics)
      ensures m == Metrics(initialWrites, repeatedWrites)
    {
      m := Metrics(initialWrites, repeatedWrites);
    }

    /** One write log. */
    method ProcessLog(log: Log) returns (update: Option<UpdateItem>)
      requires log.rwFlag
      modifies this`initialValues, this`modifiedKeys, this`initialWrites, this`repeatedWrites
      ensures View() == DoLog(old(View()), log) && update == ItemOf(old(View()), log)
    {
      var key := log.key;
      if key !in initialValues {
        initialValues := initialValues[key := log.readValue];
      }
      var initialValue := initialValues[key];
      var wasModified := key in modifiedKeys;
      var isModified := if log.rollback then initialValue != log.readValue else initialValue != log.writtenValue;
      var isWriteInitial := log.logType == InitialWrite;
      update := None;
      if wasModified && !isModified {
        modifiedKeys := modifiedKeys - {key};
        if isWriteInitial {
          initialWrites := initialWrites - 1;
        } else {
          repeatedWrites := repeatedWrites - 1;
        }
        update := Some(UpdateItem(key, false, isWriteInitial));
      } else if !wasModified && isModified {
        modifiedKeys := modifiedKeys + {key};
        if isWriteInitial {
          initialWrites := initialWrites + 1;
        } else {
          repeatedWrites := repeatedWrites + 1;
        }
        update := Some(UpdateItem(key, true, isWriteInitial));
      }
      assert initialValues == old(initialValues)[key := initialValue];
    }

    /** `process_storage_logs`: reads are skipped. */
    method ProcessStorageLogs(logs: seq<Log>) returns (updates: seq<UpdateItem>)
      modifies this`initialValues, this`modifiedKeys, this`initialWrites, this`repeatedWrites
      ensures View() == DoLogs(old(View()), logs) && updates == Updates(old(View()), logs)
    {
      updates := [];
      for i := 0 to |logs|
        invariant View() == DoLogs(old(View()), logs[..i]) && updates == Updates(old(View()), logs[..i])
      {
        assert logs[..i + 1][..i] == logs[..i];
        if logs[i].rwFlag {
          var update := ProcessLog(logs[i]);
          if update.Some? {
            updates := updates + [update.value];
          }
        }
      }
      assert logs[..|logs|] == logs;
    }

    method UndoOne(item: UpdateItem)
      modifies this`modifiedKeys, this`initialWrites, this`repeatedWrites
      ensures View() == Undo(old(View()), item)
    {
      if item.isInsertion {
        modifiedKeys := modifiedKeys - {item.key};
        if item.isWriteInitial {
          initialWrites := initialWrites - 1;
        } else {
          repeatedWrites := repeatedWrites - 1;
        }
      } else {
        modifiedKeys := modifiedKeys + {item.key};
        if item.isWriteInitial {
          initialWrites := initialWrites + 1;
        } else {
          repeatedWrites := repeatedWrites + 1;
        }
      }
    }

    /** `rollback` of the updates that `logs` made on state `s`. */
    method Rollback(updates: seq<UpdateItem>, ghost s: State, ghost logs: seq<Log>)
      requires View() == DoLogs(s, logs) && updates == Updates(s, logs)
      modifies this`modifiedKeys, this`initialWrites, this`repeatedWrites
      ensures View() == s.(initialValues := initialValues)
    {
      ghost var j: nat := |logs|;
      assert logs[..j] == logs && updates[..|updates|] == updates;
      for n := |updates| downto 0
        invariant j <= |logs| && updates[..n] == Updates(s, logs[..j])
        invariant View() == DoLogs(s, logs[..j]).(initialValues := initialValues)
      {
        assert updates[..n + 1][..n] == updates[..n] && updates[..n + 1][n] == updates[n];
        j := LastUndone(s, logs, j, initialValues);
        UndoOne(updates[n]);
      }
      NoUpdatesNoChange(s, logs[..j]);
    }

    lemma {:induction false} NoUpdatesNoChange(s: State, logs: seq<Log>)
      requires Updates(s, logs) == []
      ensures DoLogs(s, logs) == s.(initialValues := DoLogs(s, logs).initialValues)
    {
      UndoIsExact(s, logs);
    }

    /** `apply`. */
    method Apply(logs: seq<Log>)
      requires Valid()
      modifies this
      ensures Valid() && View() == DoLogs(old(View()), logs) && seen == old(seen) + logs && kept == old(kept) + logs
    {
      DoLogsMeans(View(), seen, kept, logs);
      var updates := ProcessStorageLogs(logs);
      seen, kept := seen + logs, kept + logs;
    }

    /** `apply_and_rollback`: answers with the metrics `apply` would leave, and leaves the keys and
        the counters as they were. */
    method ApplyAndRollback(logs: seq<Log>) returns (m: Metrics)
      requires Valid()
      modifies this
      ensures Valid() && seen == old(seen) + logs && kept == old(kept)
      ensures modifiedKeys == old(modifiedKeys) && initialWrites == old(initialWrites)
      ensures repeatedWrites == old(repeatedWrites)
      ensures initialValues == DoLogs(old(View()), logs).initialValues
      ensures m.initialStorageWrites == DoLogs(old(View()), logs).initialWrites
      ensures m.repeatedStorageWrites == DoLogs(old(View()), logs).repeatedWrites
    {
      ghost var s := View();
      UndoneMeans(s, seen, kept, logs);
      var updates := ProcessStorageLogs(logs);
      m := GetMetrics();
      Rollback(updates, s, logs);
      seen := seen + logs;
    }
  }

  /** `apply_on_empty_state`. */
  method ApplyOnEmptyState(logs: seq<Log>) returns (m: Metrics)
    ensures m == Metrics(DoLogs(EMPTY, logs).initialWrites, DoLogs(EMPTY, logs).repeatedWrites)
  {
    var d := new StorageWritesDeduplicator();
    d.Apply(logs);
    m := d.GetMetrics();
  }
}
