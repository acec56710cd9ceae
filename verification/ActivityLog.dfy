/** The activity log: newest first, capped, with entries that can be taken off. */
module ActivityLog {
  import opened Prelude
  import opened Manifest

  datatype Undo = NoUndo | PutBack(objs: seq<Object>) | NameBack(from: string, to: string)

  datatype Activity = Activity(id: nat, undo: Undo)

  /** The entries that are stored, and the last id that was given out. */
  datatype Log = Log(entries: seq<Activity>, lastId: nat)

  const CAP: nat := 80

  function Capped(log: seq<Activity>): seq<Activity> { log[..Min(CAP, |log|)] }

  function Push(log: seq<Activity>, e: Activity): seq<Activity> { Capped([e] + log) }

  function WithoutId(log: seq<Activity>, id: nat): seq<Activity> {
    if log == [] then [] else (if log[0].id != id then [log[0]] else []) + WithoutId(log[1..], id)
  }

  /** Newest first, at most as many as are kept, and no id beyond the last one given out. */
  predicate LogValid(log: Log) {
    && |log.entries| <= CAP
    && (forall i :: 0 <= i < |log.entries| ==> log.entries[i].id <= log.lastId)
    && FallingIds(log.entries)
  }

  predicate FallingIds(log: seq<Activity>) { forall i, j :: 0 <= i < j < |log| ==> log[i].id > log[j].id }

  datatype LogOp = Add(undo: Undo) | Take(id: nat) | Clear

  function Logged(log: Log, undo: Undo): Activity { Activity(log.lastId + 1, undo) }

  function LogStep(op: LogOp, log: Log): Log {
    match op
    case Add(undo) => Log(Push(log.entries, Logged(log, undo)), log.lastId + 1)
    case Take(id) => Log(WithoutId(log.entries, id), log.lastId)
    case Clear => Log([], log.lastId)
  }

  function RunLog(ops: seq<LogOp>, log: Log): Log {
    if ops == [] then log else LogStep(ops[|ops| - 1], RunLog(ops[..|ops| - 1], log))
  }

  lemma {:induction false} RunLogConcat(ops: seq<LogOp>, more: seq<LogOp>, log: Log)
    ensures RunLog(ops + more, log) == RunLog(more, RunLog(ops, log))
    decreases |more|
  {
    hide LogStep;
    if more == [] {
      assert ops + more == ops;
    } else {
      RunLogConcat(ops, more[..|more| - 1], log);
      assert (ops + more)[..|ops + more| - 1] == ops + more[..|more| - 1];
    }
  }

  lemma RunLogOne(op: LogOp, log: Log)
    ensures RunLog([op], log) == LogStep(op, log)
  {
    hide LogStep;
    assert [op][..0] == [];
  }

  // ----- the log stays valid

  lemma {:induction false} WithoutIdKeeps(log: seq<Activity>, id: nat)
    ensures |WithoutId(log, id)| <= |log|
    ensures forall e :: e in WithoutId(log, id) <==> e in log && e.id != id
  {
    if log != [] {
      WithoutIdKeeps(log[1..], id);
      assert log == [log[0]] + log[1..];
    }
  }

  lemma {:induction false} WithoutIdFalls(log: seq<Activity>, id: nat)
    requires FallingIds(log)
    ensures FallingIds(WithoutId(log, id))
  {
    if log != [] {
      var h, t := log[0], log[1..];
      var r := WithoutId(t, id);
      WithoutIdFalls(t, id);
      WithoutIdKeeps(t, id);
      forall i | 0 <= i < |r|
        ensures r[i].id < h.id
      {
        assert r[i] in t;
      }
      ConsFalls(h, r);
      assert [] + r == r;
    }
  }

  lemma ConsFalls(h: Activity, r: seq<Activity>)
    requires FallingIds(r) && forall i :: 0 <= i < |r| ==> r[i].id < h.id
    ensures FallingIds([h] + r)
  {
  }

  lemma StepValid(op: LogOp, log: Log)
    requires LogValid(log)
    ensures LogValid(LogStep(op, log))
  {
    match op
    case Add(undo) => ConsFalls(Logged(log, undo), log.entries);
    case Take(id) =>
      hide FallingIds;
      WithoutIdFalls(log.entries, id);
      WithoutIdKeeps(log.entries, id);
      var r := WithoutId(log.entries, id);
      forall i | 0 <= i < |r|
        ensures r[i].id <= log.lastId
      {
        assert r[i] in log.entries;
      }
    case Clear =>
  }

  lemma {:induction false} RunValid(ops: seq<LogOp>, log: Log)
    requires LogValid(log)
    ensures LogValid(RunLog(ops, log)) && RunLog(ops, log).lastId == log.lastId + Adds(ops)
    decreases |ops|
  {
    hide LogValid;
    if ops != [] {
      RunValid(ops[..|ops| - 1], log);
      StepValid(ops[|ops| - 1], RunLog(ops[..|ops| - 1], log));
    }
  }

  // ----- how long an entry stays

  function Adds(ops: seq<LogOp>): nat {
    if ops == [] then 0 else Adds(ops[..|ops| - 1]) + if ops[|ops| - 1].Add? then 1 else 0
  }

  /** The operation takes the entry with this id off. */
  predicate TakesOff(op: LogOp, id: nat) { op == Take(id) || op.Clear? }

  predicate NeverTakenOff(ops: seq<LogOp>, id: nat) { forall i :: 0 <= i < |ops| ==> !TakesOff(ops[i], id) }

  /** One operation on the ids of the later entries that have not been taken off. */
  function NextLater(op: LogOp, last: nat, later: set<nat>): set<nat> {
    match op
    case Add(_) => later + {last + 1}
    case Take(id) => later - {id}
    case Clear => {}
  }

  /** The ids given out by `ops` after `last`, without those taken off again, and whatever the cap. */
  function Later(ops: seq<LogOp>, last: nat, later: set<nat>): set<nat> {
    if ops == [] then later
    else
      var front := ops[..|ops| - 1];
      NextLater(ops[|ops| - 1], last + Adds(front), Later(front, last, later))
  }

  /** After the first `i` operations fewer later entries are there than the log keeps. */
  predicate RoomAfter(ops: seq<LogOp>, i: nat, last: nat, later: set<nat>)
    requires i <= |ops|
  {
    |Later(ops[..i], last, later)| < CAP
  }

  predicate NeverFull(ops: seq<LogOp>, last: nat, later: set<nat>) {
    forall i :: 0 <= i <= |ops| ==> RoomAfter(ops, i, last, later)
  }

  /** The ids of the entries in front of one with this id. */
  function Newer(log: seq<Activity>, id: nat): set<nat> { set x | x in log && x.id > id :: x.id }

  lemma {:induction false} NewerCount(log: seq<Activity>, k: nat)
    requires FallingIds(log) && k < |log|
    ensures |Newer(log, log[k].id)| == k
  {
    var id := log[k].id;
    if k == 0 {
      assert Newer(log, id) == {};
    } else {
      var t := log[1..];
      assert log == [log[0]] + t;
      assert log[0].id > t[k - 1].id;
      NewerCount(t, k - 1);
      assert Newer(log, id) == {log[0].id} + Newer(t, id);
      assert log[0].id !in Newer(t, id);
    }
  }

  lemma AddKeeps(log: Log, undo: Undo, k: nat)
    requires LogValid(log) && k < |log.entries|
    ensures var e, after := log.entries[k], Push(log.entries, Logged(log, undo));
            && (e in after <==> k + 1 < CAP)
            && (e in after ==> Newer(after, e.id) == Newer(log.entries, e.id) + {log.lastId + 1})
  {
    var e, x := log.entries[k], Logged(log, undo);
    var after := Push(log.entries, x);
    var whole := [x] + log.entries;
    ConsFalls(x, log.entries);
    hide FallingIds, Capped;
    assert whole[k + 1] == e;
    CappedHas(whole, k + 1);
    if k + 1 < CAP {
      NewerCapped(whole, k + 1);
      assert Newer(whole, e.id) == Newer(log.entries, e.id) + {x.id};
    }
  }

  lemma CappedHas(log: seq<Activity>, k: nat)
    requires FallingIds(log) && k < |log|
    ensures log[k] in Capped(log) <==> k < CAP
  {
    if k < CAP {
      assert Capped(log)[k] == log[k];
    }
  }

  lemma NewerCapped(log: seq<Activity>, k: nat)
    requires FallingIds(log) && k < |log| && k < CAP
    ensures Newer(Capped(log), log[k].id) == Newer(log, log[k].id)
  {
    var id := log[k].id;
    forall x | x in log && x.id > id
      ensures x in Capped(log)
    {
      var j :| 0 <= j < |log| && log[j] == x;
      assert j < k;
      assert Capped(log)[j] == x;
    }
  }

  lemma TakeKeeps(log: Log, id: nat, e: Activity)
    requires LogValid(log) && e in log.entries
    ensures e in WithoutId(log.entries, id) <==> e.id != id
    ensures Newer(WithoutId(log.entries, id), e.id) == Newer(log.entries, e.id) - {id}
  {
    WithoutIdKeeps(log.entries, id);
  }

  /** One operation: whether the entry stays, and what is then in front of it. */
  lemma StepKeeps(op: LogOp, log: Log, e: Activity)
    requires LogValid(log) && e in log.entries
    ensures var after := LogStep(op, log).entries;
            var later := NextLater(op, log.lastId, Newer(log.entries, e.id));
            && (e in after <==> !TakesOff(op, e.id) && |later| < CAP)
            && (e in after ==> Newer(after, e.id) == later)
  {
    hide Push, WithoutId, Newer, FallingIds;
    var k :| 0 <= k < |log.entries| && log.entries[k] == e;
    NewerCount(log.entries, k);
    match op
    case Add(undo) =>
      AddKeeps(log, undo, k);
      FreshId(log, e);
    case Take(id) =>
      TakeKeeps(log, id, e);
      LessIsFewer(Newer(log.entries, e.id), id);
    case Clear =>
  }

  lemma FreshId(log: Log, e: Activity)
    requires LogValid(log)
    ensures |Newer(log.entries, e.id) + {log.lastId + 1}| == |Newer(log.entries, e.id)| + 1
  {
    assert log.lastId + 1 !in Newer(log.entries, e.id);
  }

  lemma LessIsFewer(s: set<nat>, x: nat)
    ensures |s - {x}| <= |s|
  {
    if x in s {
      assert s == (s - {x}) + {x};
    } else {
      assert s - {x} == s;
    }
  }

  lemma GoneStaysGone(op: LogOp, log: Log, e: Activity)
    requires e.id <= log.lastId && e !in log.entries
    ensures e !in LogStep(op, log).entries
  {
    match op
    case Add(undo) =>
      assert forall x :: x in Push(log.entries, Logged(log, undo)) ==> x == Logged(log, undo) || x in log.entries;
    case Take(id) => WithoutIdKeeps(log.entries, id);
    case Clear =>
  }

  /**
   After any run of logging, taking off and clearing, an entry is still there exactly when it was
   never taken off and at no time the later entries that had not been taken off filled the log.
   */
  lemma {:induction false} EntryStaysIff(ops: seq<LogOp>, log: Log, e: Activity)
    requires LogValid(log) && e in log.entries
    ensures e in RunLog(ops, log).entries <==>
            NeverTakenOff(ops, e.id) && NeverFull(ops, log.lastId, Newer(log.entries, e.id))
    ensures e in RunLog(ops, log).entries ==>
            Newer(RunLog(ops, log).entries, e.id) == Later(ops, log.lastId, Newer(log.entries, e.id))
    decreases |ops|
  {
    hide LogStep, LogValid, Newer, NextLater, TakesOff, NeverTakenOff, NeverFull;
    var later := Newer(log.entries, e.id);
    if ops == [] {
      EntryIsInFront(log, e);
      NoOps(log.lastId, later, e.id);
    } else {
      var n := |ops| - 1;
      var front, op := ops[..n], ops[n];
      EntryStaysIff(front, log, e);
      RunValid(front, log);
      LastTaken(ops, e.id);
      LastFull(ops, log.lastId, later);
      if e in RunLog(front, log).entries {
        StepKeeps(op, RunLog(front, log), e);
      } else {
        IdsBelow(log, e);
        GoneStaysGone(op, RunLog(front, log), e);
      }
    }
  }

  lemma NoOps(last: nat, later: set<nat>, id: nat)
    ensures NeverTakenOff([], id) && (NeverFull([], last, later) <==> |later| < CAP)
  {
    AllOps([], last, later);
  }

  lemma EntryIsInFront(log: Log, e: Activity)
    requires LogValid(log) && e in log.entries
    ensures |Newer(log.entries, e.id)| < CAP
  {
    var k :| 0 <= k < |log.entries| && log.entries[k] == e;
    NewerCount(log.entries, k);
  }

  lemma IdsBelow(log: Log, e: Activity)
    requires LogValid(log) && e in log.entries
    ensures e.id <= log.lastId
  {
  }

  lemma LastTaken(ops: seq<LogOp>, id: nat)
    requires ops != []
    ensures var n := |ops| - 1;
            NeverTakenOff(ops, id) <==> NeverTakenOff(ops[..n], id) && !TakesOff(ops[n], id)
  {
    hide TakesOff;
    var n := |ops| - 1;
    assert forall i :: 0 <= i < n ==> ops[..n][i] == ops[i];
  }

  lemma LastFull(ops: seq<LogOp>, last: nat, later: set<nat>)
    requires ops != []
    ensures var n := |ops| - 1;
            NeverFull(ops, last, later) <==> NeverFull(ops[..n], last, later) && |Later(ops, last, later)| < CAP
  {
    hide Later, RoomAfter;
    var n := |ops| - 1;
    AllOps(ops, last, later);
    forall i | 0 <= i <= n
      ensures RoomAfter(ops[..n], i, last, later) == RoomAfter(ops, i, last, later)
    {
      SameRoom(ops, n, i, last, later);
    }
  }

  lemma AllOps(ops: seq<LogOp>, last: nat, later: set<nat>)
    ensures RoomAfter(ops, |ops|, last, later) <==> |Later(ops, last, later)| < CAP
  {
    hide Later;
    assert ops[..|ops|] == ops;
  }

  lemma SameRoom(ops: seq<LogOp>, n: nat, i: nat, last: nat, later: set<nat>)
    requires i <= n <= |ops|
    ensures RoomAfter(ops[..n], i, last, later) == RoomAfter(ops, i, last, later)
  {
    hide Later;
    assert ops[..n][..i] == ops[..i];
  }

  // ----- runs in which nothing is taken off

  predicate OnlyAdds(ops: seq<LogOp>) { forall i :: 0 <= i < |ops| ==> ops[i].Add? }

  lemma {:induction false} AddsOnly(ops: seq<LogOp>, last: nat)
    requires OnlyAdds(ops)
    ensures Adds(ops) == |ops| && |Later(ops, last, {})| == |ops|
    ensures forall x :: x in Later(ops, last, {}) ==> x <= last + |ops|
    decreases |ops|
  {
    if ops != [] {
      AddsOnly(ops[..|ops| - 1], last);
    }
  }

  /** Where nothing is taken off, a new entry stays until as many later ones have been logged as are kept. */
  lemma EntryStaysUntilPushedOut(ops: seq<LogOp>, log: Log, undo: Undo)
    requires LogValid(log) && OnlyAdds(ops)
    ensures Logged(log, undo) in RunLog(ops, LogStep(Add(undo), log)).entries <==> |ops| < 80
  {
    hide Later, Push, Newer, LogValid;
    var e := Logged(log, undo);
    var log' := LogStep(Add(undo), log);
    StepValid(Add(undo), log);
    NewEntryInFront(log, undo);
    EntryStaysIff(ops, log', e);
    forall i: nat | i <= |ops|
      ensures RoomAfter(ops, i, log'.lastId, {}) <==> i < CAP
    {
      AddsOnly(ops[..i], log'.lastId);
    }
    assert RoomAfter(ops, |ops|, log'.lastId, {}) <==> |ops| < CAP;
  }

  lemma NewEntryInFront(log: Log, undo: Undo)
    requires LogValid(log)
    ensures var e, after := Logged(log, undo), LogStep(Add(undo), log);
            after.entries != [] && after.entries[0] == e && e in after.entries && Newer(after.entries, e.id) == {}
  {
    var e, after := Logged(log, undo), LogStep(Add(undo), log);
    assert after.entries[0] == e;
    assert forall x :: x in after.entries ==> x == e || x in log.entries;
  }
}
