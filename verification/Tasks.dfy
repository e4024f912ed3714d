/**
  Non-blocking requests of one handle (Misc.c FatQueueTask, FatOnAccessComplete, FatDestroySubtask): a task
  is split into subtasks, the device accepts them one by one, and completes those it accepted in any order.
  Completions come after the loop that submits the subtasks of a task.
 */
module Tasks {
  import opened Bytes
  import opened Lists

  type TaskId = nat
  type SubId = nat

  predicate Failed(s: Status) {
    s != Success
  }

  // ---------------------------------------------------------------- what the caller of a task sees

  /**
    The history of a task: whether queueing it succeeded, how many subtasks the device accepted, the
    results of those completed so far in the order of completion, the signals of its token, and how often
    its memory was freed.
   */
  datatype Log = Log(accepted: bool, submitted: nat, results: seq<Status>, signals: seq<Status>, frees: nat)

  predicate AnyFailed(results: seq<Status>) {
    exists i :: 0 <= i < |results| && Failed(results[i])
  }

  function FirstFailure(results: seq<Status>): (s: Status)
    requires AnyFailed(results)
    ensures exists i :: 0 <= i < |results| && results[i] == s && Failed(s) && forall j :: 0 <= j < i ==> !Failed(results[j])
  {
    if Failed(results[0]) then results[0] else FirstFailure(results[1..])
  }

  /** The token is signalled once: at the first failure, or when everything has completed; never for a task that was refused. */
  function Expected(accepted: bool, submitted: nat, results: seq<Status>): (signals: seq<Status>)
    ensures |signals| <= 1
  {
    if !accepted then []
    else if AnyFailed(results) then [FirstFailure(results)]
    else if |results| == submitted then [Success]
    else []
  }

  /** Another completion can only add the first signal. */
  lemma ExpectedStep(submitted: nat, results: seq<Status>, s: Status)
    requires |results| < submitted
    ensures var before, after := Expected(true, submitted, results), Expected(true, submitted, results + [s]);
      if before != [] then after == before
      else if Failed(s) || |results| + 1 == submitted then after == [s] else after == []
  {
    var r := results + [s];
    if AnyFailed(results) {
      FirstFailureKept(results, s);
    } else if Failed(s) {
      assert Failed(r[|results|]);
      FirstFailureLast(results, s);
    } else {
      assert forall i :: 0 <= i < |r| ==> !Failed(r[i]);
    }
  }

  lemma {:induction false} FirstFailureKept(results: seq<Status>, s: Status)
    requires AnyFailed(results)
    ensures AnyFailed(results + [s]) && FirstFailure(results + [s]) == FirstFailure(results)
  {
    var i :| 0 <= i < |results| && Failed(results[i]);
    assert Failed((results + [s])[i]);
    if !Failed(results[0]) {
      assert Failed(results[1..][i - 1]);
      FirstFailureKept(results[1..], s);
      assert (results + [s])[1..] == results[1..] + [s];
    }
  }

  lemma {:induction false} FirstFailureLast(results: seq<Status>, s: Status)
    requires !AnyFailed(results) && Failed(s) && AnyFailed(results + [s])
    ensures FirstFailure(results + [s]) == s
  {
    if results != [] {
      assert !Failed(results[0]);
      assert forall i :: 0 <= i < |results[1..]| ==> results[1..][i] == results[i + 1];
      assert (results + [s])[1..] == results[1..] + [s];
      assert Failed((results[1..] + [s])[|results| - 1]);
      FirstFailureLast(results[1..], s);
    }
  }

  /** The history of a task agrees with its state: live with `remaining` subtasks, or freed. */
  ghost predicate LogOk(l: Log, live: bool, remaining: nat, hasToken: bool) {
    && l.frees == (if live then 0 else 1)
    && (if live then remaining > 0 && |l.results| + remaining == l.submitted else |l.results| == l.submitted)
    && l.signals == Expected(l.accepted, l.submitted, l.results)
    && (hasToken <==> live && l.accepted && l.signals == [])
  }

  /** After a completion: the token is used at the first failure or at the end, and it is freed at the end. */
  function AfterComplete(l: Log, remaining: nat, hasToken: bool, s: Status): Log
    requires remaining > 0
  {
    Log(l.accepted, l.submitted, l.results + [s],
        if hasToken && (remaining == 1 || Failed(s)) then l.signals + [s] else l.signals,
        if remaining == 1 then l.frees + 1 else l.frees)
  }

  /** Each completion keeps history and state in agreement, whatever the order of completions. */
  lemma LogStep(l: Log, remaining: nat, hasToken: bool, s: Status)
    requires LogOk(l, true, remaining, hasToken)
    ensures LogOk(AfterComplete(l, remaining, hasToken, s), remaining > 1, remaining - 1, hasToken && remaining > 1 && !Failed(s))
  {
    hide Expected;
    if l.accepted {
      ExpectedStep(l.submitted, l.results, s);
    } else {
      ExpectedRefused(l.submitted, l.results);
      ExpectedRefused(l.submitted, l.results + [s]);
    }
  }

  /** The history of a task after its requests have completed with `results`, in that order. */
  function Completed(accepted: bool, submitted: nat, results: seq<Status>): (l: Log)
    requires |results| <= submitted
  {
    if results == [] then Log(accepted, submitted, [], [], 0)
    else
      var n := |results| - 1;
      var l := Completed(accepted, submitted, results[..n]);
      AfterComplete(l, submitted - n, accepted && !AnyFailed(results[..n]), results[n])
  }

  /** For every order of completions and every outcome: one signal, one free, and neither too early. */
  lemma {:induction false} CompletedOk(accepted: bool, submitted: nat, results: seq<Status>)
    requires 0 < submitted && |results| <= submitted
    ensures Completed(accepted, submitted, results).results == results
    ensures Completed(accepted, submitted, results).signals == Expected(accepted, submitted, results)
    ensures Completed(accepted, submitted, results).frees == if |results| == submitted then 1 else 0
  {
    hide Expected, AnyFailed;
    if results != [] {
      var n := |results| - 1;
      CompletedOk(accepted, submitted, results[..n]);
      assert results[..n] + [results[n]] == results;
      if accepted {
        ExpectedStep(submitted, results[..n], results[n]);
        SignalledMeans(submitted, results[..n]);
      } else {
        ExpectedRefused(submitted, results[..n]);
        ExpectedRefused(submitted, results);
      }
    } else {
      NothingExpected(accepted, submitted);
    }
  }

  lemma NothingExpected(accepted: bool, submitted: nat)
    requires 0 < submitted
    ensures Expected(accepted, submitted, []) == []
  {
  }

  lemma SignalledMeans(submitted: nat, results: seq<Status>)
    requires |results| < submitted
    ensures Expected(true, submitted, results) == [] <==> !AnyFailed(results)
  {
  }

  lemma NewLogs(k: nat)
    ensures LogOk(Log(true, 0, [], [Success], 1), false, 0, false) && LogOk(Log(false, 0, [], [], 1), false, 0, false)
    ensures k > 0 ==> LogOk(Log(true, k, [], [], 0), true, k, true) && LogOk(Log(false, k, [], [], 0), true, k, false)
  {
  }

  lemma ExpectedRefused(submitted: nat, results: seq<Status>)
    ensures Expected(false, submitted, results) == []
  {
  }

  // ---------------------------------------------------------------- the queue of a handle

  /** The subtasks of a task in the list are exactly the requests the device still has for it. */
  ghost predicate Linked(tasks: seq<TaskId>, subtasks: map<TaskId, seq<SubId>>, owner: map<SubId, TaskId>) {
    && NoRepeats(tasks) && (forall t :: t in tasks <==> t in subtasks)
    && (forall t :: t in subtasks ==> NoRepeats(subtasks[t]))
    && (forall t, s :: t in subtasks && s in subtasks[t] ==> s in owner && owner[s] == t)
    && (forall s :: s in owner ==> owner[s] in subtasks && s in subtasks[owner[s]])
  }

  lemma NotListed(tasks: seq<TaskId>, subtasks: map<TaskId, seq<SubId>>, owner: map<SubId, TaskId>, t: TaskId)
    requires Linked(tasks, subtasks, owner) && t !in subtasks
    ensures t !in tasks && Without(tasks + [t], t) == tasks
  {
    WithoutLast(tasks, t);
  }

  lemma {:induction false} WithoutLast(tasks: seq<TaskId>, t: TaskId)
    requires t !in tasks
    ensures Without(tasks + [t], t) == tasks
  {
    if tasks != [] {
      WithoutLast(tasks[1..], t);
      assert (tasks + [t])[1..] == tasks[1..] + [t];
    }
  }

  lemma ListsAfterQueue(tasks: seq<TaskId>, subtasks: map<TaskId, seq<SubId>>, owner: map<SubId, TaskId>, t: TaskId, subs: seq<SubId>)
    requires Linked(tasks, subtasks, owner) && t !in subtasks && NoRepeats(subs) && forall s :: s in subs ==> s !in owner
    ensures Linked(tasks + [t], subtasks[t := subs], owner + map s | s in subs :: t)
  {
    var owner' := owner + map s | s in subs :: t;
    assert forall s :: s in owner' ==> if s in subs then owner'[s] == t else s in owner && owner'[s] == owner[s];
  }

  lemma ListsAfterComplete(tasks: seq<TaskId>, subtasks: map<TaskId, seq<SubId>>, owner: map<SubId, TaskId>, sub: SubId)
    requires Linked(tasks, subtasks, owner) && sub in owner
    ensures owner[sub] in subtasks
    ensures var t, rest := owner[sub], Without(subtasks[owner[sub]], sub);
      && |rest| == |subtasks[t]| - 1
      && if rest == [] then Linked(Without(tasks, t), subtasks - {t}, owner - {sub}) else Linked(tasks, subtasks[t := rest], owner - {sub})
  {
    hide Without;
    var t := owner[sub];
    WithoutFacts(tasks, t);
    WithoutFacts(subtasks[t], sub);
    var rest := Without(subtasks[t], sub);
    assert forall s :: s in subtasks[t] && s != sub ==> s in rest;
  }

  class TaskQueue {
    var tasks: seq<TaskId>
    var subtasks: map<TaskId, seq<SubId>>
    var tokens: set<TaskId>
    var owner: map<SubId, TaskId>
    ghost var logs: map<TaskId, Log>

    ghost predicate LogsOk()
      reads this
    {
      && subtasks.Keys <= logs.Keys && tokens <= subtasks.Keys
      && forall t :: t in logs ==> LogOk(logs[t], t in subtasks, if t in subtasks then |subtasks[t]| else 0, t in tokens)
    }

    ghost predicate Valid()
      reads this
    {
      Linked(tasks, subtasks, owner) && LogsOk()
    }

    constructor ()
      ensures Valid() && tasks == [] && owner == map[] && logs == map[]
    {
      tasks, subtasks, tokens, owner, logs := [], map[], {}, map[], map[];
    }

    /** FatWaitNonblockingTask waits for this: no task in the list means that the device has no request of this handle. */
    lemma NoOutstanding()
      requires Valid() && tasks == []
      ensures owner == map[]
    {
    }

    /** A freed task has been signalled exactly once if it was accepted, with the first failure or success, and never otherwise. */
    lemma Settled(t: TaskId)
      requires Valid() && t in logs && t !in tasks
      ensures logs[t].frees == 1 && |logs[t].results| == logs[t].submitted
      ensures !logs[t].accepted ==> logs[t].signals == []
      ensures logs[t].accepted ==>
        logs[t].signals == [if AnyFailed(logs[t].results) then FirstFailure(logs[t].results) else Success]
    {
    }

    /** FatQueueTask; `accepts` is the answer of the device to each request. */
    method QueueTask(t: TaskId, subs: seq<SubId>, accepts: SubId -> Status) returns (status: Status)
      requires Valid() && t !in logs && NoRepeats(subs) && forall s :: s in subs ==> s !in owner
      modifies this
      ensures Valid() && logs.Keys == old(logs.Keys) + {t} && (forall u :: u in old(logs) ==> logs[u] == old(logs)[u])
      ensures logs[t].accepted == (status == Success) && logs[t].results == []
      ensures status == Success ==> logs[t].submitted == |subs| && forall i :: 0 <= i < |subs| ==> !Failed(accepts(subs[i]))
      ensures Failed(status) ==> logs[t].submitted < |subs| && accepts(subs[logs[t].submitted]) == status
      ensures t in tasks <==> logs[t].submitted > 0
    {
      hide Linked, LogOk;
      NotListed(tasks, subtasks, owner, t);
      NewLogs(|subs|);
      if subs == [] {
        logs := logs[t := Log(true, 0, [], [Success], 1)];
        return Success;
      }
      ghost var before := tasks;
      tasks := tasks + [t];
      var k;
      status, k := SubmitSubtasks(subs, accepts);
      NewLogs(k);
      if k == 0 {
        tasks := Without(tasks, t);
        logs := logs[t := Log(false, 0, [], [], 1)];
      } else {
        ghost var owner0 := owner;
        assert NoRepeats(subs[..k]) && forall s :: s in subs[..k] ==> s !in owner0;
        KeepTask(t, subs[..k], !Failed(status), before);
      }
    }

    /** The subtasks that the device took stay with their task; one that was not queued completely loses its token. */
    method KeepTask(t: TaskId, taken: seq<SubId>, accepted: bool, ghost before: seq<TaskId>)
      requires Linked(before, subtasks, owner) && tasks == before + [t] && LogsOk() && t !in logs
      requires taken != [] && NoRepeats(taken) && forall s :: s in taken ==> s !in owner
      modifies this`subtasks, this`owner, this`tokens, this`logs
      ensures Valid() && logs == old(logs)[t := Log(accepted, |taken|, [], [], 0)]
    {
      hide Linked, LogOk;
      NewLogs(|taken|);
      ListsAfterQueue(before, subtasks, owner, t, taken);
      subtasks := subtasks[t := taken];
      owner := owner + map s | s in taken :: t;
      tokens := if accepted then tokens + {t} else tokens;
      logs := logs[t := Log(accepted, |taken|, [], [], 0)];
    }

    /** The loop of FatQueueTask: requests are handed to the device until it refuses one. */
    method SubmitSubtasks(subs: seq<SubId>, accepts: SubId -> Status) returns (status: Status, k: nat)
      ensures k <= |subs| && forall i :: 0 <= i < k ==> !Failed(accepts(subs[i]))
      ensures if k < |subs| then status == accepts(subs[k]) && Failed(status) else status == Success
    {
      status, k := Success, 0;
      while k < |subs|
        invariant k <= |subs| && status == Success
        invariant forall i :: 0 <= i < k ==> !Failed(accepts(subs[i]))
      {
        status := accepts(subs[k]);
        if Failed(status) {
          break;
        }
        k := k + 1;
      }
    }

    /** FatOnAccessComplete: the device completes a request. */
    method OnAccessComplete(sub: SubId, status: Status)
      requires Valid() && sub in owner
      modifies this
      ensures Valid() && owner == old(owner) - {sub} && logs.Keys == old(logs.Keys)
      ensures var t, l := old(owner)[sub], old(logs)[old(owner)[sub]];
        logs[t].accepted == l.accepted && logs[t].submitted == l.submitted && logs[t].results == l.results + [status]
      ensures forall u :: u in old(logs) && u != old(owner)[sub] ==> logs[u] == old(logs)[u]
    {
      hide LogOk, Linked;
      ListsAfterComplete(tasks, subtasks, owner, sub);
      var t := owner[sub];
      ghost var l, remaining, hasToken := logs[t], |subtasks[t]|, t in tokens;
      LogStep(l, remaining, hasToken, status);
      var rest := Without(subtasks[t], sub);
      owner := owner - {sub};
      if t in tokens && (rest == [] || Failed(status)) {
        tokens := tokens - {t};
      }
      if rest == [] {
        tasks := Without(tasks, t);
        subtasks := subtasks - {t};
      } else {
        subtasks := subtasks[t := rest];
      }
      logs := logs[t := AfterComplete(l, remaining, hasToken, status)];
    }
  }
}
