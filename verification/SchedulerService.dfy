/** The scheduler's service and actions, which change the job store step by step. */
module SchedulerService {
  import opened Options
  import S = Scheduler
  import opened SchedulerActions
  import opened SchedulerMerge
  import opened SchedulerSites
  import opened SchedulerValidation
  import R = SchedulerRuns
  import V = SchedulerViews

  /** The job store as its clients see it. A job's details are handed out as a copy. */
  class Quartz {
    var jobs: map<S.JobKey, S.JobData>
    var triggers: map<S.TriggerKey, S.Trigger>

    constructor ()
      ensures State() == S.Store(map[], map[])
    {
      jobs, triggers := map[], map[];
    }

    ghost function State(): S.Store
      reads this
    {
      S.Store(jobs, triggers)
    }

    method GetJobDetail(key: S.JobKey) returns (d: JobDetail?)
      ensures d == null <==> key !in jobs
      ensures d != null ==> fresh(d) && d.key == key && d.data == jobs[key]
    {
      if key in jobs {
        d := new JobDetail(key, jobs[key]);
      } else {
        d := null;
      }
    }

    /** The job keys of a group, in whatever order the store lists them. */
    method GetJobKeys(group: string) returns (keys: seq<S.JobKey>)
      ensures Lists(State(), group, keys)
    {
      var left := set key | key in jobs && key.group == group;
      keys := [];
      while left != {}
        invariant forall key :: key in left || key in keys <==> key in jobs && key.group == group
        invariant forall key :: key in keys ==> key !in left
        invariant forall i, j :: 0 <= i < j < |keys| ==> keys[i] != keys[j]
        decreases |left|
      {
        var key :| key in left;
        keys, left := keys + [key], left - {key};
      }
    }

    method AddJob(d: JobDetail)
      modifies this
      ensures State() == S.Save(old(State()), d.key, d.data)
    {
      jobs := jobs[d.key := d.data];
    }

    method GetTriggersOfJob(key: S.JobKey) returns (ks: set<S.TriggerKey>)
      ensures ks == S.TriggersOf(State(), key)
    {
      ks := set tk | tk in triggers && triggers[tk].job == key;
    }

    method ScheduleTrigger(tk: S.TriggerKey, t: S.Trigger) returns (ok: bool)
      modifies this
      ensures S.Outcome(State(), ok) == S.AddTrigger(old(State()), tk, t)
    {
      ok := tk !in triggers && t.job in jobs;
      if ok {
        triggers := triggers[tk := t];
      }
    }

    method RescheduleTrigger(tk: S.TriggerKey, t: S.Trigger)
      modifies this
      ensures State() == if tk in old(triggers) then S.Store(old(jobs), old(triggers)[tk := t]) else old(State())
    {
      if tk in triggers {
        triggers := triggers[tk := t];
      }
    }

    method Unschedule(tk: S.TriggerKey) returns (gone: bool)
      modifies this
      ensures State() == S.RemoveTrigger(old(State()), tk) && gone == (tk in old(triggers))
    {
      gone := tk in triggers;
      triggers := triggers - {tk};
    }

    method RemoveJob(key: S.JobKey)
      modifies this
      ensures State() == S.Store(old(jobs) - {key}, old(triggers) - S.TriggersOf(old(State()), key))
    {
      var ks := GetTriggersOfJob(key);
      triggers := triggers - ks;
      jobs := jobs - {key};
    }
  }

  class JobDetail {
    const key: S.JobKey
    var data: S.JobData

    constructor (key: S.JobKey, data: S.JobData)
      ensures this.key == key && this.data == data
    {
      this.key, this.data := key, data;
    }
  }

  class SchedulerUtils {
    const scheduler: Quartz
    const w: S.World
    /** What `hashCode()` gives for this object. */
    const stamp: string

    constructor (scheduler: Quartz, w: S.World, stamp: string)
      ensures this.scheduler == scheduler && this.w == w && this.stamp == stamp
    {
      this.scheduler, this.w, this.stamp := scheduler, w, stamp;
    }

    method IsRunning(d: JobDetail) returns (r: bool)
      ensures r == S.Running(scheduler.State(), d.key)
    {
      var ks := scheduler.GetTriggersOfJob(d.key);
      var left := ks;
      while left != {}
        invariant left <= ks && forall tk :: tk in ks - left ==> !scheduler.triggers[tk].complete
        decreases |left|
      {
        var tk :| tk in left;
        if scheduler.triggers[tk].complete {
          return true;
        }
        left := left - {tk};
      }
      return false;
    }

    method GetCronTrigger(d: JobDetail) returns (t: Option<S.TriggerKey>)
      ensures t == S.FirstCron(w, scheduler.State(), d.key)
    {
      var ks := scheduler.GetTriggersOfJob(d.key);
      var crons := set tk | tk in ks && scheduler.triggers[tk].kind.Cron?;
      assert crons == S.CronTriggersOf(scheduler.State(), d.key);
      return if crons == {} then None else Some(w.first(crons));
    }

    method AddSimpleTrigger(d: JobDetail, id: string) returns (ok: bool)
      modifies scheduler
      ensures S.Outcome(scheduler.State(), ok) == S.AddSimpleTrigger(old(scheduler.State()), d.key, id, stamp)
      ensures d.key in old(scheduler.jobs) ==>
                IsStarted(old(scheduler.State()), d.key, S.TriggerKey(id + "-simpletrigger-" + stamp, d.key.group),
                          S.Outcome(scheduler.State(), ok))
    {
      hide IsStarted;
      if d.key in scheduler.jobs {
        AddSimpleLaw(scheduler.State(), d.key, id, stamp);
      }
      var running := IsRunning(d);
      if running {
        return true;
      }
      ok := scheduler.ScheduleTrigger(S.SimpleKey(id, stamp, d.key.group), S.Trigger(d.key, S.Simple, false));
    }

    method ScheduleJob(d: JobDetail, id: string, triggerGroup: string) returns (ok: bool)
      modifies scheduler, d
      ensures S.Outcome(scheduler.State(), ok)
           == S.ScheduleJob(w, old(scheduler.State()), d.key, old(d.data), id, triggerGroup, stamp)
      ensures IsScheduled(w, old(scheduler.State()), d.key, old(d.data),
                          S.TriggerKey(id + "-crontrigger-" + stamp, triggerGroup), S.Outcome(scheduler.State(), ok))
    {
      hide IsScheduled;
      ScheduleLaw(w, scheduler.State(), d.key, d.data, id, triggerGroup, stamp);
      var ks := scheduler.GetTriggersOfJob(d.key);
      if |ks| == 0 {
        var cron := d.data.cron;
        d.data := d.data.(enabled := Some(true));
        scheduler.AddJob(d);
        ok := AddCronTrigger(d, cron, id, triggerGroup);
      } else {
        ok := true;
      }
    }

    method AddCronTrigger(d: JobDetail, cron: Option<string>, id: string, triggerGroup: string) returns (ok: bool)
      modifies scheduler
      ensures S.Outcome(scheduler.State(), ok)
           == if S.IsValid(w, cron) then
                S.AddTrigger(old(scheduler.State()), S.CronKey(id, stamp, triggerGroup),
                             S.Trigger(d.key, S.Cron(cron.value), false))
              else S.Outcome(old(scheduler.State()), true)
    {
      if cron.Some? && w.valid(cron.value) {
        var tk := S.CronKey(id, stamp, triggerGroup);
        ok := scheduler.ScheduleTrigger(tk, S.Trigger(d.key, S.Cron(cron.value), false));
      } else {
        ok := true;
      }
    }

    method RescheduleJob(d: JobDetail, cron: Option<string>) returns (ok: bool)
      requires S.WellBehaved(w)
      modifies scheduler, d
      ensures S.Outcome(scheduler.State(), ok) == S.Reschedule(w, old(scheduler.State()), d.key, old(d.data), cron)
      ensures IsRescheduled(w, old(scheduler.State()), d.key, old(d.data), cron, S.Outcome(scheduler.State(), ok))
    {
      hide IsRescheduled;
      RescheduleLaw(w, scheduler.State(), d.key, d.data, cron);
      d.data := d.data.(cron := cron);
      var t := GetCronTrigger(d);
      if t.Some? {
        if cron.None? || !w.valid(cron.value) {
          return false;
        }
        assert t.value in S.CronTriggersOf(scheduler.State(), d.key);
        scheduler.RescheduleTrigger(t.value, S.Trigger(d.key, S.Cron(cron.value), false));
      }
      scheduler.AddJob(d);
      ok := true;
    }

    method DeleteCronTrigger(d: JobDetail, forcefullyDisabled: bool) returns (unscheduled: bool)
      requires S.WellBehaved(w)
      modifies scheduler, d
      ensures scheduler.State()
           == S.DeleteCronTrigger(w, old(scheduler.State()), d.key, old(d.data), forcefullyDisabled)
      ensures unscheduled == HasCron(old(scheduler.State()), d.key)
      ensures IsUnscheduled(old(scheduler.State()), d.key, old(d.data),
                            if forcefullyDisabled then Some(true) else old(d.data).forcefullyDisabled,
                            scheduler.State())
    {
      hide IsUnscheduled, HasCron;
      DeleteCronLaw(w, scheduler.State(), d.key, d.data, forcefullyDisabled);
      FirstIsCron(w, scheduler.State(), d.key);
      var t := GetCronTrigger(d);
      if t.None? {
        return false;
      }
      assert t.value in S.CronTriggersOf(scheduler.State(), d.key);
      d.data := d.data.(cron := Some(scheduler.triggers[t.value].kind.expression));
      d.data := d.data.(enabled := Some(false));
      if forcefullyDisabled {
        d.data := d.data.(forcefullyDisabled := Some(true));
      }
      scheduler.AddJob(d);
      unscheduled := scheduler.Unschedule(t.value);
    }

    method DeleteJob(d: JobDetail)
      modifies scheduler
      ensures scheduler.State() == S.DeleteJob(old(scheduler.State()), d.key)
      ensures IsDeleted(old(scheduler.State()), d.key, scheduler.State())
    {
      hide IsDeleted;
      DeleteJobLaw(scheduler.State(), d.key);
      var running := IsRunning(d);
      if !running {
        scheduler.RemoveJob(d.key);
      }
    }

    method AddMetaData(site: string, app: string, job: S.Scheduled, bean: string, d: JobDetail)
      modifies d
      ensures d.data == S.Merge(w, old(d.data), site, app, job, bean)
      ensures IsMerged(w, old(d.data), site, app, job, bean, d.data)
    {
      hide IsMerged;
      MergeLaw(w, d.data, site, app, job, bean);
      var cron, enabled := d.data.cron, S.Flag(d.data.enabled);
      d.data := d.data.(scheduledJob := Some(job.className));
      d.data := d.data.(origin := Some(app));
      d.data := d.data.(siteName := Some(site));
      d.data := d.data.(beanName := Some(bean));
      if job.data.Some? {
        d.data := S.PutAll(d.data, job.data.value);
      }
      if S.Flag(d.data.forcefullyDisabled) {
        enabled := true;
        d.data := d.data.(forcefullyDisabled := None);
      }
      if cron.Some? && !w.blank(cron.value) && !S.Flag(d.data.forceState) {
        d.data := d.data.(cron := cron);
        d.data := d.data.(enabled := Some(enabled));
      }
    }

    method MergedJobDetail(key: S.JobKey, site: string, app: string, job: S.Scheduled, bean: string)
      returns (d: JobDetail)
      modifies scheduler
      ensures fresh(d) && d.key == key
      ensures d.data == S.Merge(w, S.StoredData(old(scheduler.State()), key), site, app, job, bean)
      ensures IsMerged(w, if key in old(scheduler.jobs) then old(scheduler.jobs)[key] else S.EMPTY,
                       site, app, job, bean, d.data)
      ensures scheduler.State() == S.Save(old(scheduler.State()), key, d.data)
    {
      var found := scheduler.GetJobDetail(key);
      if found == null {
        found := new JobDetail(key, S.EMPTY);
      }
      d := found;
      AddMetaData(site, app, job, bean, d);
      scheduler.AddJob(d);
    }
  }

  // What is left to start, at each round of the nested loops of `start`.

  lemma EntriesStep(apps: seq<S.App>, i: nat)
    requires i <= |apps|
    ensures S.Entries(apps[i..])
         == if i < |apps| then S.BeanEntries(apps[i].name, apps[i].beans) + S.Entries(apps[i + 1..]) else []
  {
    if i < |apps| {
      assert apps[i..][1..] == apps[i + 1..];
    }
  }

  lemma BeanEntriesStep(app: string, beans: seq<S.Bean>, j: nat, rest: seq<S.Entry>)
    requires j <= |beans|
    ensures j == |beans| ==> S.BeanEntries(app, beans[j..]) + rest == rest
    ensures j < |beans| ==>
              S.BeanEntries(app, beans[j..]) + rest
              == (if beans[j].job.Some? then [S.Entry(app, beans[j].name, beans[j].job.value)] else [])
                 + (S.BeanEntries(app, beans[j + 1..]) + rest)
    ensures j < |beans| && beans[j].job.None? ==>
              S.BeanEntries(app, beans[j..]) + rest == S.BeanEntries(app, beans[j + 1..]) + rest
  {
    if j < |beans| {
      assert beans[j..][1..] == beans[j + 1..];
    }
  }

  lemma StartEntriesStep(w: S.World, s: S.Store, site: string, e: S.Entry, es: seq<S.Entry>, stamp: string)
    ensures S.StartEntries(w, s, site, [e] + es, stamp)
         == S.StartEntries(w, S.StartEntry(w, s, site, e, stamp), site, es, stamp)
  {
    hide S.StartEntry;
    assert ([e] + es)[1..] == es;
  }

  lemma StartNothing(w: S.World, s: S.Store, site: string, stamp: string)
    ensures S.StartEntries(w, s, site, [], stamp) == s
  {
  }

  class SchedulingController {
    const scheduler: Quartz
    const w: S.World

    constructor (scheduler: Quartz, w: S.World)
      ensures this.scheduler == scheduler && this.w == w
    {
      this.scheduler, this.w := scheduler, w;
    }

    /** One bean of the loop of `start`. */
    method StartBean(u: SchedulerUtils, site: string, e: S.Entry)
      requires u.scheduler == scheduler && u.w == w
      modifies scheduler
      ensures scheduler.State() == S.StartEntry(w, old(scheduler.State()), site, e, u.stamp)
    {
      var key := S.GetJobKey(site, e.app, e.bean);
      var d := u.MergedJobDetail(key, site, e.app, e.job, e.bean);
      if S.Flag(d.data.enabled) {
        var ok := u.ScheduleJob(d, key.name, site);
      }
    }

    method StartBeans(u: SchedulerUtils, site: string, apps: seq<S.App>)
      requires u.scheduler == scheduler && u.w == w
      modifies scheduler
      ensures scheduler.State() == S.StartEntries(w, old(scheduler.State()), site, S.Entries(apps), u.stamp)
      ensures V.DistinctKeys(site, S.Entries(apps)) ==>
                forall e :: e in S.Entries(apps) ==>
                  Starts(w, old(scheduler.State()), site, e, u.stamp, scheduler.State())
    {
      hide S.StartEntries, S.StartEntry, S.Entries, S.BeanEntries, Starts, V.DistinctKeys;
      ghost var whole := S.StartEntries(w, scheduler.State(), site, S.Entries(apps), u.stamp);
      assert apps[0..] == apps;
      for i := 0 to |apps|
        invariant whole == S.StartEntries(w, scheduler.State(), site, S.Entries(apps[i..]), u.stamp)
      {
        var a := apps[i];
        ghost var rest := S.Entries(apps[i + 1..]);
        EntriesStep(apps, i);
        assert a.beans[0..] == a.beans;
        for j := 0 to |a.beans|
          invariant whole
                 == S.StartEntries(w, scheduler.State(), site, S.BeanEntries(a.name, a.beans[j..]) + rest, u.stamp)
        {
          BeanEntriesStep(a.name, a.beans, j, rest);
          if a.beans[j].job.Some? {
            var e := S.Entry(a.name, a.beans[j].name, a.beans[j].job.value);
            StartEntriesStep(w, scheduler.State(), site, e, S.BeanEntries(a.name, a.beans[j + 1..]) + rest, u.stamp);
            StartBean(u, site, e);
          }
        }
        BeanEntriesStep(a.name, a.beans, |a.beans|, rest);
      }
      EntriesStep(apps, |apps|);
      StartNothing(w, scheduler.State(), site, u.stamp);
      forall e | V.DistinctKeys(site, S.Entries(apps)) && e in S.Entries(apps)
        ensures Starts(w, old(scheduler.State()), site, e, u.stamp, scheduler.State())
      {
        StartLaw(w, old(scheduler.State()), site, S.Entries(apps), u.stamp, e);
      }
    }

    /** One job of the loop of `validateJobs`; `ok` is false where it throws. */
    method ValidateJob(u: SchedulerUtils, apps: seq<S.App>, key: S.JobKey) returns (ok: bool)
      requires S.WellBehaved(w) && u.scheduler == scheduler && u.w == w
      modifies scheduler
      ensures S.Outcome(scheduler.State(), ok) == S.ValidateJob(w, old(scheduler.State()), apps, key)
    {
      var d := scheduler.GetJobDetail(key);
      if d == null {
        return false;
      }
      assert S.Save(scheduler.State(), key, d.data) == scheduler.State();
      var app, bean := d.data.origin, d.data.beanName;
      if S.Blank(w, bean) {
        if app.None? || |app.value| + 1 > |key.name| {
          return false;
        }
        bean := Some(key.name[|app.value| + 1..]);
        d.data := d.data.(beanName := bean);
        scheduler.AddJob(d);
      }
      var jobOk := S.BeanExists(apps, app, bean.value);
      if !jobOk && d.data.cron.Some? {
        var _ := u.DeleteCronTrigger(d, true);
      }
      ok := true;
    }

    method ValidateJobs(u: SchedulerUtils, site: string, apps: seq<S.App>) returns (ok: bool, ghost keys: seq<S.JobKey>)
      requires S.WellBehaved(w) && u.scheduler == scheduler && u.w == w
      modifies scheduler
      ensures Lists(old(scheduler.State()), site, keys)
      ensures S.Outcome(scheduler.State(), ok) == S.ValidateJobs(w, old(scheduler.State()), apps, keys)
      ensures R.Inv(w, old(scheduler.State())) && ok ==>
                forall key :: key in keys ==>
                  && HasName(w, V.ViewOf(old(scheduler.State()), key), key)
                  && IsValidated(w, V.ViewOf(old(scheduler.State()), key), apps, key, V.ViewOf(scheduler.State(), key))
    {
      hide R.Inv, HasName, IsValidated, V.ViewOf, S.ValidateJob;
      var all := scheduler.GetJobKeys(site);
      keys := all;
      for i := 0 to |all|
        invariant S.ValidateJobs(w, old(scheduler.State()), apps, keys)
               == S.ValidateJobs(w, scheduler.State(), apps, all[i..])
      {
        assert all[i..][1..] == all[i + 1..];
        ok := ValidateJob(u, apps, all[i]);
        if !ok {
          return;
        }
      }
      ok := true;
      forall key | R.Inv(w, old(scheduler.State())) && key in keys
        ensures HasName(w, V.ViewOf(old(scheduler.State()), key), key)
        ensures IsValidated(w, V.ViewOf(old(scheduler.State()), key), apps, key, V.ViewOf(scheduler.State(), key))
      {
        ValidationLaw(w, old(scheduler.State()), apps, keys, key);
      }
    }

    /** The start of a site; `ok` is false where validation throws. */
    method Start(stamp: string, validateJobsOnStartup: bool, site: string, apps: seq<S.App>)
      returns (ok: bool, ghost keys: Option<seq<S.JobKey>>)
      requires S.WellBehaved(w)
      modifies scheduler
      ensures keys.Some? == validateJobsOnStartup && (keys.Some? ==> Lists(old(scheduler.State()), site, keys.value))
      ensures S.Outcome(scheduler.State(), ok) == S.Start(w, old(scheduler.State()), site, apps, keys, stamp)
    {
      var u := new SchedulerUtils(scheduler, w, stamp);
      keys := None;
      if validateJobsOnStartup {
        ghost var ks;
        ok, ks := ValidateJobs(u, site, apps);
        keys := Some(ks);
        if !ok {
          return;
        }
      }
      StartBeans(u, site, apps);
      ok := true;
    }
  }

  /** The action that schedules, unschedules, starts or deletes a job; `ok` is false where it meets an exception. */
  method SetSchedulerState(scheduler: Quartz, w: S.World, stamp: string, site: string, action: string, id: string)
    returns (ok: bool)
    requires S.WellBehaved(w)
    modifies scheduler
    ensures S.Outcome(scheduler.State(), ok) == S.SetState(w, old(scheduler.State()), site, action, id, stamp)
    ensures Acts(w, old(scheduler.State()), site, action, id, stamp, S.Outcome(scheduler.State(), ok))
  {
    hide Acts;
    SetStateLaw(w, scheduler.State(), site, action, id, stamp);
    var u := new SchedulerUtils(scheduler, w, stamp);
    var d := scheduler.GetJobDetail(S.JobKey(id, site));
    ok := true;
    if action == S.ACTION_SCHEDULE {
      if d != null {
        ok := u.ScheduleJob(d, id, site);
      }
    } else if action == S.ACTION_UNSCHEDULE {
      if d == null {
        return false;
      }
      var _ := u.DeleteCronTrigger(d, false);
    } else if action == S.ACTION_START {
      if d == null {
        return false;
      }
      ok := u.AddSimpleTrigger(d, id);
    } else if action == S.ACTION_DELETE {
      if d == null {
        return false;
      }
      u.DeleteJob(d);
    }
  }

  /** The action that gives a job another cron expression. */
  method UpdateScheduler(scheduler: Quartz, w: S.World, stamp: string, site: string, id: string, cron: Option<string>)
    returns (ok: bool)
    requires S.WellBehaved(w)
    modifies scheduler
    ensures S.Outcome(scheduler.State(), ok) == S.Update(w, old(scheduler.State()), site, id, cron)
    ensures Updates(w, old(scheduler.State()), site, id, cron, S.Outcome(scheduler.State(), ok))
  {
    hide Updates;
    UpdateLaw(w, scheduler.State(), site, id, cron);
    var u := new SchedulerUtils(scheduler, w, stamp);
    var d := scheduler.GetJobDetail(S.JobKey(id, site));
    if cron.Some? && !w.valid(cron.value) {
      return true;
    }
    if d != null {
      ok := u.RescheduleJob(d, cron);
    } else {
      ok := true;
    }
  }
}
