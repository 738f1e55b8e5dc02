/** The job-scheduling administration actions: each one validates its
    input, then reconciles the persisted job table with the live scheduler.

    The job repository and the scheduler center are collaborators whose
    implementations are not part of this model. Each of their calls is a
    method of the controller with the contract the actions rely on: it
    reports success with a boolean that the model leaves open. Every call
    is appended to the ghost trace `calls`, so the contracts can say which
    calls an action makes and in what order. */
module QuartzNet {
  import opened Common
  import opened QuartzDto

  /** The registration key of a job in the live scheduler. */
  datatype JobKey = JobKey(taskName: Option<string>, taskGroup: Option<string>)

  function KeyOf(d: JobDefinition): JobKey
  {
    JobKey(d.taskName, d.taskGroup)
  }

  /** What the scheduler reports for a key: "运行中", "暂停", or anything else. */
  datatype TriggerStatus = Running | Paused | OtherStatus

  /** The status the scheduler reports for a key; a key with no live
      registration is neither running nor paused. */
  function StatusOf(live: map<JobKey, TriggerStatus>, k: JobKey): (s: TriggerStatus)
    ensures s != OtherStatus ==> k in live && live[k] == s
    ensures k !in live ==> s == OtherStatus
  {
    if k in live then live[k] else OtherStatus
  }

  /** A row of the query result: the definition and its live status. */
  datatype JobView = JobView(definition: JobDefinition, triggerStatus: TriggerStatus)

  /** One call on a collaborator. */
  datatype Call =
    | RepoCreate(definition: JobDefinition)
    | RepoUpdate(definition: JobDefinition)
    | RepoFind(ids: set<int>)
    | RepoQuery
    | RepoDelete(ids: set<int>)
    | SchedulerAdd(key: JobKey)
    | SchedulerDelete(key: JobKey)
    | SchedulerExists(key: JobKey)
    | SchedulerStatus(key: JobKey)
    | SchedulerPause(key: JobKey)
    | SchedulerResume(key: JobKey)

  /** Why an action failed. */
  datatype Reason =
    | ModelInvalid
    | CronMissing
    | CronInvalid
    | IntervalTooShort
    | IdEmpty
    | JobNotFound
    | NothingMatched
    | OperationFailed
    | RepositoryRejected
    | PersistFailed
    | ExecuteFailed
    | AlreadyRunning
    | PauseFailed
    | ResumeFailed

  /** The text the controller answers with for each reason it words itself.
      A failed save in Execute answers with the empty text; the others
      without one carry the framework's or the service's own text. */
  function Message(r: Reason): (m: string)
    ensures m == "" <==> r in {ModelInvalid, NothingMatched, OperationFailed, RepositoryRejected, PersistFailed}
  {
    match r
    case CronMissing => "cron模式下请设置作业执行cron表达式"
    case CronInvalid => "cron模式下请设置正确得cron表达式"
    case IntervalTooShort => "simple模式下请设置作业间隔执行秒数"
    case IdEmpty => "id cannot be empty"
    case JobNotFound => "作业调度不存在"
    case ExecuteFailed => "执行失败,请重试！"
    case AlreadyRunning => "已在运行,请勿重复开启！"
    case PauseFailed => "暂停失败,请重试！"
    case ResumeFailed => "恢复失败,请重试！"
    case _ => ""
  }

  /** An HTTP answer: `Ok(result)` carries a service result, `BadRequest`
      is the controller's own `Error(...)`. */
  datatype ActionResult = Ok(result: OperateResult<Reason>) | BadRequest(reason: Reason)

  /** A trigger definition the scheduler can be given: a cron trigger has a
      non-empty, valid expression; a simple trigger fires at least every
      six seconds apart. */
  predicate TriggerConfigured(d: JobDefinition, isValidCron: string -> bool)
  {
    && (d.triggerType == Cron ==> d.cron.Some? && |d.cron.value| > 0 && isValidCron(d.cron.value))
    && (d.triggerType == Simple ==> d.intervalSecond >= 6)
  }

  /** The trigger-type guard shared by Create and Update. */
  function TriggerError(d: JobDefinition, isValidCron: string -> bool): (r: Option<Reason>)
    ensures r.None? <==> TriggerConfigured(d, isValidCron)
    ensures r == Some(CronMissing) <==> d.triggerType == Cron && IsNullOrEmpty(d.cron)
    ensures r == Some(CronInvalid) <==>
      d.triggerType == Cron && !IsNullOrEmpty(d.cron) && !isValidCron(d.cron.value)
    ensures r == Some(IntervalTooShort) <==> d.triggerType == Simple && d.intervalSecond <= 5
  {
    if d.triggerType == Cron then
      if IsNullOrEmpty(d.cron) then Some(CronMissing)
      else if !isValidCron(d.cron.value) then Some(CronInvalid)
      else None
    else if d.triggerType == Simple then
      if d.intervalSecond <= 5 then Some(IntervalTooShort) else None
    else None
  }

  /** Everything Create and Update check before calling a collaborator:
      model validation first, then the trigger guard. */
  function AdmissionError(d: JobDefinition, isValidCron: string -> bool): (r: Option<Reason>)
    ensures r.None? <==> AnnotationsValid(d) && TriggerConfigured(d, isValidCron)
    ensures !AnnotationsValid(d) ==> r == Some(ModelInvalid)
    ensures AnnotationsValid(d) ==> r == TriggerError(d, isValidCron)
  {
    if !AnnotationsValid(d) then Some(ModelInvalid) else TriggerError(d, isValidCron)
  }

  /** The interval floor: five seconds is refused, six is accepted. */
  lemma IntervalFloor(d: JobDefinition, isValidCron: string -> bool)
    requires d.triggerType == Simple
    ensures TriggerError(d.(intervalSecond := 5), isValidCron) == Some(IntervalTooShort)
    ensures TriggerError(d.(intervalSecond := 6), isValidCron) == None
  {
  }

  /** A cron job with no expression, an empty one or one the parser refuses
      never reaches a collaborator, whatever the other fields hold. */
  lemma CronJobNeedsValidExpression(d: JobDefinition, isValidCron: string -> bool)
    requires d.triggerType == Cron
    requires d.cron.None? || d.cron.value == "" || !isValidCron(d.cron.value)
    ensures AdmissionError(d, isValidCron).Some?
  {
  }

  /** The ids of a list of rows. */
  function IdsOf(s: seq<JobDefinition>): (ids: set<int>)
    ensures s == [] <==> ids == {}
  {
    if s == [] then {} else IdsOf(s[..|s| - 1]) + {s[|s| - 1].id}
  }

  /** No two rows of a list carry the same id. */
  predicate DistinctIds(s: seq<JobDefinition>)
  {
    forall i, j :: 0 <= i < j < |s| ==> s[i].id != s[j].id
  }

  /** The registration keys of a list of rows. */
  function KeysOf(s: seq<JobDefinition>): set<JobKey>
  {
    if s == [] then {} else KeysOf(s[..|s| - 1]) + {KeyOf(s[|s| - 1])}
  }

  lemma {:induction false} KeysOfMember(s: seq<JobDefinition>, i: nat)
    requires i < |s|
    ensures KeyOf(s[i]) in KeysOf(s)
  {
    if i < |s| - 1 {
      KeysOfMember(s[..|s| - 1], i);
    }
  }

  /** The scheduler calls that deregister each row of a list, in order. */
  function Deregistrations(s: seq<JobDefinition>): (cs: seq<Call>)
    ensures |cs| == |s|
    ensures forall i :: 0 <= i < |s| ==> cs[i] == SchedulerDelete(KeyOf(s[i]))
  {
    if s == [] then [] else Deregistrations(s[..|s| - 1]) + [SchedulerDelete(KeyOf(s[|s| - 1]))]
  }

  /** The scheduler status queries for each row of a page, in order. */
  function StatusQueries(page: seq<JobView>): (cs: seq<Call>)
    ensures |cs| == |page|
    ensures forall i :: 0 <= i < |page| ==> cs[i] == SchedulerStatus(KeyOf(page[i].definition))
  {
    if page == [] then [] else StatusQueries(page[..|page| - 1]) + [SchedulerStatus(KeyOf(page[|page| - 1].definition))]
  }

  /** `after` is `before` with `d` inserted under a fresh positive id. */
  ghost predicate Inserted(before: map<int, JobDefinition>, after: map<int, JobDefinition>, d: JobDefinition)
  {
    exists id :: id > 0 && id !in before && after == before[id := d.(id := id)]
  }

  class QuartzNetController {
    /** `CronExpression.IsValidExpression`. */
    const isValidCron: string -> bool
    /** The job table, by id. */
    var jobs: map<int, JobDefinition>
    /** The scheduler's live registrations and their status. */
    var live: map<JobKey, TriggerStatus>
    /** Every collaborator call made so far, in order. */
    ghost var calls: seq<Call>

    /** Each stored row carries its own id. */
    ghost predicate Valid()
      reads this
    {
      forall id :: id in jobs ==> jobs[id].id == id
    }

    constructor (isValidCron: string -> bool, jobs: map<int, JobDefinition>, live: map<JobKey, TriggerStatus>)
      requires forall id :: id in jobs ==> jobs[id].id == id
      ensures Valid()
      ensures this.isValidCron == isValidCron && this.jobs == jobs && this.live == live && calls == []
    {
      this.isValidCron := isValidCron;
      this.jobs := jobs;
      this.live := live;
      calls := [];
    }

    // ---- the job repository ----

    /** Inserts the definition under a fresh id, or reports failure. */
    method CreateJob(d: JobDefinition) returns (created: Option<JobDefinition>)
      requires Valid()
      modifies this`jobs, this`calls
      ensures Valid()
      ensures calls == old(calls) + [RepoCreate(d)]
      ensures created.None? ==> jobs == old(jobs)
      ensures created.Some? ==>
        var id := created.value.id;
        && created.value == d.(id := id) && id > 0 && id !in old(jobs)
        && jobs == old(jobs)[id := created.value]
    {
      calls := calls + [RepoCreate(d)];
      var ok: bool :| true;
      if ok {
        var id := FreshKey(jobs);
        created := Some(d.(id := id));
        jobs := jobs[id := created.value];
      } else {
        created := None;
      }
    }

    /** Overwrites the row with the definition's id, or reports failure;
        a row update of an id not in the table writes nothing. */
    method UpdateJob(d: JobDefinition) returns (ok: bool)
      requires Valid()
      modifies this`jobs, this`calls
      ensures Valid()
      ensures calls == old(calls) + [RepoUpdate(d)]
      ensures ok ==> d.id in old(jobs)
      ensures jobs == if ok then old(jobs)[d.id := d] else old(jobs)
    {
      calls := calls + [RepoUpdate(d)];
      ok :| ok ==> d.id in jobs;
      if ok {
        jobs := jobs[d.id := d];
      }
    }

    /** The row with the given id, if any. */
    method FindJob(id: int) returns (found: Option<JobDefinition>)
      modifies this`calls
      ensures calls == old(calls) + [RepoFind({id})]
      ensures found == if id in jobs then Some(jobs[id]) else None
    {
      calls := calls + [RepoFind({id})];
      found := if id in jobs then Some(jobs[id]) else None;
    }

    /** The rows whose id is in the set, each once, in an order the model
        leaves open. */
    method FindJobs(ids: set<int>) returns (list: seq<JobDefinition>)
      requires Valid()
      modifies this`calls
      ensures calls == old(calls) + [RepoFind(ids)]
      ensures IdsOf(list) == ids * jobs.Keys
      ensures |list| == |ids * jobs.Keys| && DistinctIds(list)
      ensures forall i :: 0 <= i < |list| ==> list[i].id in jobs && jobs[list[i].id] == list[i]
    {
      calls := calls + [RepoFind(ids)];
      var rest := ids * jobs.Keys;
      list := [];
      while rest != {}
        invariant calls == old(calls) + [RepoFind(ids)]
        invariant rest <= ids * jobs.Keys
        invariant IdsOf(list) + rest == ids * jobs.Keys
        invariant |list| + |rest| == |ids * jobs.Keys|
        invariant DistinctIds(list) && forall i :: 0 <= i < |list| ==> list[i].id !in rest
        invariant forall i :: 0 <= i < |list| ==> list[i].id in jobs && jobs[list[i].id] == list[i]
        decreases rest
      {
        var id := Pick(rest);
        var prefix := list;
        list := list + [jobs[id]];
        assert list[..|list| - 1] == prefix;
        rest := rest - {id};
      }
    }

    /** Deletes the listed rows, or reports failure. */
    method DeleteJobs(list: seq<JobDefinition>) returns (ok: bool)
      requires Valid()
      modifies this`jobs, this`calls
      ensures Valid()
      ensures calls == old(calls) + [RepoDelete(IdsOf(list))]
      ensures jobs == if ok then old(jobs) - IdsOf(list) else old(jobs)
    {
      calls := calls + [RepoDelete(IdsOf(list))];
      ok :| true;
      if ok {
        jobs := jobs - IdsOf(list);
      }
    }

    // ---- the scheduler center ----

    /** Registers the key as running, or reports failure. */
    method AddScheduleJob(k: JobKey) returns (ok: bool)
      modifies this`live, this`calls
      ensures calls == old(calls) + [SchedulerAdd(k)]
      ensures live == if ok then old(live)[k := Running] else old(live)
    {
      calls := calls + [SchedulerAdd(k)];
      ok :| true;
      if ok {
        live := live[k := Running];
      }
    }

    /** Drops the key's registration, or reports failure. */
    method DeleteScheduleJob(k: JobKey) returns (ok: bool)
      modifies this`live, this`calls
      ensures calls == old(calls) + [SchedulerDelete(k)]
      ensures live == if ok then old(live) - {k} else old(live)
    {
      calls := calls + [SchedulerDelete(k)];
      ok :| true;
      if ok {
        live := live - {k};
      }
    }

    method IsExistScheduleJob(k: JobKey) returns (registered: bool)
      modifies this`calls
      ensures calls == old(calls) + [SchedulerExists(k)]
      ensures registered <==> k in live
    {
      calls := calls + [SchedulerExists(k)];
      registered := k in live;
    }

    method GetTriggerStatus(k: JobKey) returns (status: TriggerStatus)
      modifies this`calls
      ensures calls == old(calls) + [SchedulerStatus(k)]
      ensures status == StatusOf(live, k)
    {
      calls := calls + [SchedulerStatus(k)];
      status := StatusOf(live, k);
    }

    /** Marks the key paused, or reports failure. */
    method PauseJob(k: JobKey) returns (ok: bool)
      modifies this`live, this`calls
      ensures calls == old(calls) + [SchedulerPause(k)]
      ensures live == if ok then old(live)[k := Paused] else old(live)
    {
      calls := calls + [SchedulerPause(k)];
      ok :| true;
      if ok {
        live := live[k := Paused];
      }
    }

    /** Marks the key running again, or reports failure. */
    method ResumeJob(k: JobKey) returns (ok: bool)
      modifies this`live, this`calls
      ensures calls == old(calls) + [SchedulerResume(k)]
      ensures live == if ok then old(live)[k := Running] else old(live)
    {
      calls := calls + [SchedulerResume(k)];
      ok :| true;
      if ok {
        live := live[k := Running];
      }
    }

    // ---- the administrative actions ----

    /** Creates a job; a created job that is enabled is also registered. */
    method Create(d: JobDefinition) returns (r: ActionResult)
      requires Valid()
      modifies this`jobs, this`live, this`calls
      ensures Valid()
      ensures AdmissionError(d, isValidCron).Some? ==>
        && r == BadRequest(AdmissionError(d, isValidCron).value)
        && jobs == old(jobs) && live == old(live) && calls == old(calls)
      ensures AdmissionError(d, isValidCron).None? ==>
        && r.Ok?
        && (r.result.Success? ==> Inserted(old(jobs), jobs, d))
        && (!r.result.Success? ==> r.result == Error(OperationFailed) && jobs == old(jobs))
        && calls == old(calls) + [RepoCreate(d)]
                    + (if r.result.Success? && d.isEnable then [SchedulerAdd(KeyOf(d))] else [])
        && (if r.result.Success? && d.isEnable
            then live == old(live) || live == old(live)[KeyOf(d) := Running]
            else live == old(live))
    {
      var e := AdmissionError(d, isValidCron);
      if e.Some? {
        return BadRequest(e.value);
      }
      var created := CreateJob(d);
      if created.Some? && created.value.isEnable {
        var added := AddScheduleJob(KeyOf(created.value));
      }
      r := Ok(ResultOf(created.Some?, OperationFailed));
    }

    /** Saves an edited job, then drops the registration under the edited
        definition's key and registers it again when enabled. */
    method Update(d: JobDefinition) returns (r: ActionResult)
      requires Valid()
      modifies this`jobs, this`live, this`calls
      ensures Valid()
      ensures AdmissionError(d, isValidCron).Some? ==>
        && r == BadRequest(AdmissionError(d, isValidCron).value)
        && jobs == old(jobs) && live == old(live) && calls == old(calls)
      ensures AdmissionError(d, isValidCron).None? ==>
        var k := KeyOf(d);
        && r.Ok?
        && (r.result.Success? ==> d.id in old(jobs) && jobs == old(jobs)[d.id := d])
        && (!r.result.Success? ==>
              r.result == Error(RepositoryRejected) && jobs == old(jobs) && live == old(live))
        && calls == old(calls) + [RepoUpdate(d)]
                    + (if r.result.Success?
                       then [SchedulerDelete(k)] + (if d.isEnable then [SchedulerAdd(k)] else [])
                       else [])
        && live - {k} == old(live) - {k}
        && (r.result.Success? && !d.isEnable ==> live == old(live) || live == old(live) - {k})
        && (r.result.Success? && d.isEnable ==>
              live == old(live) || live == old(live) - {k} || live == old(live)[k := Running])
      ensures d.id in old(jobs) && KeyOf(old(jobs)[d.id]) != KeyOf(d) && KeyOf(old(jobs)[d.id]) in old(live) ==>
        var stale := KeyOf(old(jobs)[d.id]);
        stale in live && live[stale] == old(live)[stale]
    {
      var e := AdmissionError(d, isValidCron);
      if e.Some? {
        return BadRequest(e.value);
      }
      var ok := UpdateJob(d);
      if ok {
        var k := KeyOf(d);
        var dropped := DeleteScheduleJob(k);
        if d.isEnable {
          var added := AddScheduleJob(k);
        }
      }
      r := Ok(ResultOf(ok, RepositoryRejected));
      if d.id in old(jobs) && KeyOf(old(jobs)[d.id]) != KeyOf(d) && KeyOf(old(jobs)[d.id]) in old(live) {
        assert KeyOf(old(jobs)[d.id]) in old(live) - {KeyOf(d)};
      }
    }

    /** Deletes the jobs with the given ids; when the repository deletes
        them, every matched job's key is deregistered, one call each.
        `idsValid` is the verdict of model validation on the id collection,
        whose annotations are not part of this model. */
    method Delete(ids: set<int>, idsValid: bool) returns (r: ActionResult, ghost matched: seq<JobDefinition>)
      requires Valid()
      modifies this`jobs, this`live, this`calls
      ensures Valid()
      ensures !idsValid ==>
        r == BadRequest(ModelInvalid) && jobs == old(jobs) && live == old(live) && calls == old(calls)
      ensures idsValid ==> IdsOf(matched) == ids * old(jobs).Keys
      ensures idsValid ==> |matched| == |ids * old(jobs).Keys| && DistinctIds(matched)
      ensures forall i :: 0 <= i < |matched| ==>
        matched[i].id in old(jobs) && old(jobs)[matched[i].id] == matched[i]
      ensures idsValid && ids * old(jobs).Keys == {} ==>
        && r == BadRequest(NothingMatched)
        && jobs == old(jobs) && live == old(live) && calls == old(calls) + [RepoFind(ids)]
      ensures idsValid && ids * old(jobs).Keys != {} ==>
        && r.Ok?
        && (r.result.Success? ==>
              && jobs == old(jobs) - ids
              && calls == old(calls) + [RepoFind(ids), RepoDelete(ids * old(jobs).Keys)]
                          + Deregistrations(matched))
        && (!r.result.Success? ==>
              && r.result == Error(RepositoryRejected)
              && jobs == old(jobs) && live == old(live)
              && calls == old(calls) + [RepoFind(ids), RepoDelete(ids * old(jobs).Keys)])
      ensures forall k :: k in live ==> k in old(live) && live[k] == old(live)[k]
      ensures forall k :: k in old(live) && k !in KeysOf(matched) ==> k in live
    {
      if !idsValid {
        return BadRequest(ModelInvalid), [];
      }
      var list := FindJobs(ids);
      matched := list;
      if |list| == 0 {
        return BadRequest(NothingMatched), matched;
      }
      var ok := DeleteJobs(list);
      assert jobs == if ok then old(jobs) - ids else old(jobs);
      if ok {
        ghost var removed := Deregister(list);
      }
      r := Ok(ResultOf(ok, RepositoryRejected));
    }

    /** The deregistration loop of `Delete`: one scheduler delete per listed
        job, in order; `removed` are the keys whose registration went. */
    method Deregister(list: seq<JobDefinition>) returns (ghost removed: set<JobKey>)
      modifies this`live, this`calls
      ensures calls == old(calls) + Deregistrations(list)
      ensures removed <= KeysOf(list) && live == old(live) - removed
    {
      removed := {};
      var i := 0;
      while i < |list|
        invariant 0 <= i <= |list|
        invariant calls == old(calls) + Deregistrations(list[..i])
        invariant removed <= KeysOf(list[..i])
        invariant live == old(live) - removed
      {
        var k := KeyOf(list[i]);
        var gone := DeleteScheduleJob(k);
        assert list[..i + 1][..i] == list[..i];
        if gone {
          removed := removed + {k};
        }
        i := i + 1;
      }
      assert list[..|list|] == list;
    }

    /** Fills in each listed job's live status, overwriting whatever status
        the row held; nothing else about the rows changes. `page` is what the
        repository's page query returns, one status query per row follows. */
    method Query(page: seq<JobView>) returns (views: seq<JobView>)
      modifies this`calls
      ensures calls == old(calls) + [RepoQuery] + StatusQueries(page)
      ensures |views| == |page|
      ensures forall i :: 0 <= i < |page| ==>
        views[i] == page[i].(triggerStatus := StatusOf(live, KeyOf(page[i].definition)))
    {
      calls := calls + [RepoQuery];
      views := page;
      var i := 0;
      while i < |views|
        invariant 0 <= i <= |views| == |page|
        invariant calls == old(calls) + [RepoQuery] + StatusQueries(page[..i])
        invariant forall j :: 0 <= j < i ==>
          views[j] == page[j].(triggerStatus := StatusOf(live, KeyOf(page[j].definition)))
        invariant forall j :: i <= j < |views| ==> views[j] == page[j]
      {
        var status := GetTriggerStatus(KeyOf(views[i].definition));
        assert page[..i + 1][..i] == page[..i];
        views := views[i := views[i].(triggerStatus := status)];
        i := i + 1;
      }
      assert page[..|page|] == page;
    }

    /** Turns a job on: persists it as enabled, then registers it unless
        its key is already registered. */
    method Execute(id: int) returns (r: ActionResult)
      requires Valid()
      modifies this`jobs, this`live, this`calls
      ensures Valid()
      ensures id == 0 ==>
        r == BadRequest(IdEmpty) && jobs == old(jobs) && live == old(live) && calls == old(calls)
      ensures id != 0 && id !in old(jobs) ==>
        && r == BadRequest(JobNotFound)
        && jobs == old(jobs) && live == old(live) && calls == old(calls) + [RepoFind({id})]
      ensures id != 0 && id in old(jobs) ==>
        var job := old(jobs)[id].(isEnable := true);
        var k := KeyOf(job);
        var saved := old(calls) + [RepoFind({id}), RepoUpdate(job)];
        && r.Ok?
        && r.result in {Success, Error(ExecuteFailed), Error(AlreadyRunning), Error(PersistFailed)}
        && (r.result == Error(PersistFailed) ==>
              jobs == old(jobs) && live == old(live) && calls == saved)
        && (r.result == Error(AlreadyRunning) ==>
              && jobs == old(jobs)[id := job] && k in old(live) && live == old(live)
              && calls == saved + [SchedulerExists(k)])
        && (r.result == Success ==>
              && jobs == old(jobs)[id := job] && k !in old(live) && live == old(live)[k := Running]
              && calls == saved + [SchedulerExists(k), SchedulerAdd(k)])
        && (r.result == Error(ExecuteFailed) ==>
              && jobs == old(jobs)[id := job] && k !in old(live) && live == old(live)
              && calls == saved + [SchedulerExists(k), SchedulerAdd(k)])
        && (r.result != Error(PersistFailed) && k in old(live) ==> r.result == Error(AlreadyRunning))
    {
      if id == 0 {
        return BadRequest(IdEmpty);
      }
      var found := FindJob(id);
      if found.None? {
        return BadRequest(JobNotFound);
      }
      var job := found.value.(isEnable := true);
      var saved := UpdateJob(job);
      if saved {
        var registered := IsExistScheduleJob(KeyOf(job));
        if !registered {
          var added := AddScheduleJob(KeyOf(job));
          if added {
            return Ok(Success);
          }
          return Ok(Error(ExecuteFailed));
        }
        return Ok(Error(AlreadyRunning));
      }
      return Ok(Error(PersistFailed));
    }

    /** Pauses a job whose trigger is running. */
    method Pause(id: int) returns (r: ActionResult)
      requires Valid()
      modifies this`live, this`calls
      ensures id == 0 ==> r == BadRequest(IdEmpty) && live == old(live) && calls == old(calls)
      ensures id != 0 && id !in jobs ==>
        r == BadRequest(JobNotFound) && live == old(live) && calls == old(calls) + [RepoFind({id})]
      ensures id != 0 && id in jobs ==>
        var k := KeyOf(jobs[id]);
        && (StatusOf(old(live), k) != Running ==>
              && r == BadRequest(PauseFailed) && live == old(live)
              && calls == old(calls) + [RepoFind({id}), SchedulerStatus(k)])
        && (StatusOf(old(live), k) == Running ==>
              && calls == old(calls) + [RepoFind({id}), SchedulerStatus(k), SchedulerExists(k), SchedulerPause(k)]
              && (r == Ok(Success) || r == BadRequest(PauseFailed))
              && (r == BadRequest(PauseFailed) ==> live == old(live))
              && (r == Ok(Success) ==> live == old(live)[k := Paused]))
    {
      if id == 0 {
        return BadRequest(IdEmpty);
      }
      var found := FindJob(id);
      if found.None? {
        return BadRequest(JobNotFound);
      }
      var k := KeyOf(found.value);
      var status := GetTriggerStatus(k);
      if status == Running {
        var registered := IsExistScheduleJob(k);
        if registered {
          var paused := PauseJob(k);
          if paused {
            return Ok(Success);
          }
        }
      }
      return BadRequest(PauseFailed);
    }

    /** Resumes a job whose trigger is paused. */
    method Resume(id: int) returns (r: ActionResult)
      requires Valid()
      modifies this`live, this`calls
      ensures id == 0 ==> r == BadRequest(IdEmpty) && live == old(live) && calls == old(calls)
      ensures id != 0 && id !in jobs ==>
        r == BadRequest(JobNotFound) && live == old(live) && calls == old(calls) + [RepoFind({id})]
      ensures id != 0 && id in jobs ==>
        var k := KeyOf(jobs[id]);
        && (StatusOf(old(live), k) != Paused ==>
              && r == BadRequest(ResumeFailed) && live == old(live)
              && calls == old(calls) + [RepoFind({id}), SchedulerStatus(k)])
        && (StatusOf(old(live), k) == Paused ==>
              && calls == old(calls) + [RepoFind({id}), SchedulerStatus(k), SchedulerExists(k), SchedulerResume(k)]
              && (r == Ok(Success) || r == BadRequest(ResumeFailed))
              && (r == BadRequest(ResumeFailed) ==> live == old(live))
              && (r == Ok(Success) ==> live == old(live)[k := Running]))
    {
      if id == 0 {
        return BadRequest(IdEmpty);
      }
      var found := FindJob(id);
      if found.None? {
        return BadRequest(JobNotFound);
      }
      var k := KeyOf(found.value);
      var status := GetTriggerStatus(k);
      if status == Paused {
        var registered := IsExistScheduleJob(k);
        if registered {
          var resumed := ResumeJob(k);
          if resumed {
            return Ok(Success);
          }
        }
      }
      return BadRequest(ResumeFailed);
    }
  }
}
