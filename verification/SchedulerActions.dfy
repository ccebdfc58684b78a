/** What each step of a user leaves in the job store. */
module SchedulerActions {
  import opened Options
  import opened Scheduler
  import opened SchedulerRuns

  ghost predicate HasTrigger(s: Store, key: JobKey) {
    exists tk :: tk in s.triggers && s.triggers[tk].job == key
  }

  ghost predicate HasComplete(s: Store, key: JobKey) {
    exists tk :: tk in s.triggers && s.triggers[tk].job == key && s.triggers[tk].complete
  }

  predicate IsCronOf(s: Store, key: JobKey, tk: TriggerKey) {
    tk in s.triggers && s.triggers[tk].job == key && s.triggers[tk].kind.Cron?
  }

  ghost predicate HasCron(s: Store, key: JobKey) {
    exists tk :: IsCronOf(s, key, tk)
  }

  /** A job without triggers is stored as enabled, and gets a trigger `tk` if its expression is valid; that throws if
      the name is taken. */
  ghost predicate IsScheduled(w: World, s: Store, key: JobKey, data: JobData, tk: TriggerKey, o: Outcome) {
    if HasTrigger(s, key) then o == Outcome(s, true)
    else
      && o.store.jobs == s.jobs[key := data.(enabled := Some(true))]
      && if data.cron.None? || !w.valid(data.cron.value) then o.ok && o.store.triggers == s.triggers
         else if tk in s.triggers then !o.ok && o.store.triggers == s.triggers
         else o.ok && o.store.triggers == s.triggers[tk := Trigger(key, Cron(data.cron.value), false)]
  }

  /** A cron trigger of the job goes, and the job keeps its expression, but not enabled. */
  ghost predicate IsUnscheduled(s: Store, key: JobKey, data: JobData, mark: Option<bool>, r: Store) {
    if !HasCron(s, key) then r == s
    else
      exists tk ::
        && IsCronOf(s, key, tk) && r.triggers == s.triggers - {tk}
        && r.jobs == s.jobs[key := data.(
                              cron := Some(s.triggers[tk].kind.expression),
                              enabled := Some(false),
                              forcefullyDisabled := mark)]
  }

  /** Unless a trigger of the job is complete, it gets a simple trigger `tk`; that throws if the name is taken. */
  ghost predicate IsStarted(s: Store, key: JobKey, tk: TriggerKey, o: Outcome) {
    if HasComplete(s, key) then o == Outcome(s, true)
    else if tk in s.triggers then o == Outcome(s, false)
    else o == Outcome(Store(s.jobs, s.triggers[tk := Trigger(key, Simple, false)]), true)
  }

  /** Unless a trigger of the job is complete, the job goes and all its triggers with it. */
  ghost predicate IsDeleted(s: Store, key: JobKey, r: Store) {
    if HasComplete(s, key) then r == s
    else
      && r.jobs == s.jobs - {key}
      && (forall tk :: tk in r.triggers <==> tk in s.triggers && s.triggers[tk].job != key)
      && (forall tk :: tk in r.triggers ==> r.triggers[tk] == s.triggers[tk])
  }

  /** A cron trigger of the job fires by the new expression under its old name, and the job stores it. Only with such a
      trigger must the expression be valid; else it throws, and nothing changes. */
  ghost predicate IsRescheduled(w: World, s: Store, key: JobKey, data: JobData, cron: Option<string>, o: Outcome) {
    if !HasCron(s, key) then o == Outcome(Store(s.jobs[key := data.(cron := cron)], s.triggers), true)
    else if cron.None? || !w.valid(cron.value) then o == Outcome(s, false)
    else
      && o.ok && o.store.jobs == s.jobs[key := data.(cron := cron)]
      && exists tk ::
           IsCronOf(s, key, tk) && o.store.triggers == s.triggers[tk := Trigger(key, Cron(cron.value), false)]
  }

  lemma FirstIsCron(w: World, s: Store, key: JobKey)
    requires WellBehaved(w)
    ensures HasCron(s, key) <==> FirstCron(w, s, key).Some?
    ensures FirstCron(w, s, key).Some? ==> IsCronOf(s, key, FirstCron(w, s, key).value)
  {
    assert forall tk :: IsCronOf(s, key, tk) <==> tk in CronTriggersOf(s, key);
    if FirstCron(w, s, key).Some? {
      assert w.first(CronTriggersOf(s, key)) in CronTriggersOf(s, key);
    }
  }

  lemma ScheduleLaw(w: World, s: Store, key: JobKey, data: JobData, id: string, group: string, stamp: string)
    ensures IsScheduled(w, s, key, data, TriggerKey(id + "-crontrigger-" + stamp, group),
                        ScheduleJob(w, s, key, data, id, group, stamp))
  {
    assert HasTrigger(s, key) <==> TriggersOf(s, key) != {} by {
      forall tk ensures tk in TriggersOf(s, key) <==> tk in s.triggers && s.triggers[tk].job == key {
      }
    }
  }

  lemma DeleteCronLaw(w: World, s: Store, key: JobKey, data: JobData, forced: bool)
    requires WellBehaved(w)
    ensures IsUnscheduled(s, key, data, if forced then Some(true) else data.forcefullyDisabled,
                          DeleteCronTrigger(w, s, key, data, forced))
  {
    FirstIsCron(w, s, key);
  }

  lemma RunningLaw(s: Store, key: JobKey)
    ensures Running(s, key) <==> HasComplete(s, key)
  {
  }

  lemma AddSimpleLaw(s: Store, key: JobKey, id: string, stamp: string)
    requires key in s.jobs
    ensures IsStarted(s, key, TriggerKey(id + "-simpletrigger-" + stamp, key.group),
                      AddSimpleTrigger(s, key, id, stamp))
  {
    RunningLaw(s, key);
  }

  lemma DeleteJobLaw(s: Store, key: JobKey)
    ensures IsDeleted(s, key, DeleteJob(s, key))
  {
    RunningLaw(s, key);
  }

  lemma RescheduleLaw(w: World, s: Store, key: JobKey, data: JobData, cron: Option<string>)
    requires WellBehaved(w)
    ensures IsRescheduled(w, s, key, data, cron, Reschedule(w, s, key, data, cron))
  {
    FirstIsCron(w, s, key);
  }

  /** What a user's action does, by its name. */
  ghost predicate Acts(w: World, s: Store, site: string, action: string, id: string, stamp: string, o: Outcome) {
    var key := JobKey(id, site);
    if action == "schedule" then
      if key !in s.jobs then o == Outcome(s, true)
      else IsScheduled(w, s, key, s.jobs[key], TriggerKey(id + "-crontrigger-" + stamp, site), o)
    else if action in ["unschedule", "start", "delete"] then
      if key !in s.jobs then o == Outcome(s, false)
      else if action == "unschedule" then
        o.ok && IsUnscheduled(s, key, s.jobs[key], s.jobs[key].forcefullyDisabled, o.store)
      else if action == "start" then IsStarted(s, key, TriggerKey(id + "-simpletrigger-" + stamp, site), o)
      else o.ok && IsDeleted(s, key, o.store)
    else o == Outcome(s, true)
  }

  lemma SetStateLaw(w: World, s: Store, site: string, action: string, id: string, stamp: string)
    requires WellBehaved(w)
    ensures Acts(w, s, site, action, id, stamp, SetState(w, s, site, action, id, stamp))
  {
    hide IsScheduled, IsUnscheduled, IsStarted, IsDeleted, ScheduleJob, DeleteCronTrigger, AddSimpleTrigger, DeleteJob;
    var key := JobKey(id, site);
    if key in s.jobs {
      ScheduleLaw(w, s, key, s.jobs[key], id, site, stamp);
      DeleteCronLaw(w, s, key, s.jobs[key], false);
      AddSimpleLaw(s, key, id, stamp);
      DeleteJobLaw(s, key);
    }
  }

  /** What a user's new expression does: nothing if it is invalid or there is no such job. */
  ghost predicate Updates(w: World, s: Store, site: string, id: string, cron: Option<string>, o: Outcome) {
    var key := JobKey(id, site);
    if (cron.Some? && !w.valid(cron.value)) || key !in s.jobs then o == Outcome(s, true)
    else IsRescheduled(w, s, key, s.jobs[key], cron, o)
  }

  lemma UpdateLaw(w: World, s: Store, site: string, id: string, cron: Option<string>)
    requires WellBehaved(w)
    ensures Updates(w, s, site, id, cron, Update(w, s, site, id, cron))
  {
    hide IsRescheduled, Reschedule;
    var key := JobKey(id, site);
    if key in s.jobs {
      RescheduleLaw(w, s, key, s.jobs[key], cron);
    }
  }

  /** Where the invariant holds, a new valid expression makes a job's cron trigger fire by it, under its old name, and
      changes no other trigger, no other job, and nothing else of the job. */
  lemma UpdateReplacesTrigger(w: World, s: Store, site: string, id: string, x: string, tk: TriggerKey)
    requires WellBehaved(w) && Inv(w, s) && w.valid(x) && IsCronOf(s, JobKey(id, site), tk)
    ensures var key, o := JobKey(id, site), Update(w, s, site, id, Some(x));
            && key in s.jobs && o.ok
            && o.store.triggers == s.triggers[tk := Trigger(key, Cron(x), false)]
            && o.store.jobs == s.jobs[key := s.jobs[key].(cron := Some(x))]
  {
    hide Update;
    UpdateLaw(w, s, site, id, Some(x));
  }

  /** Where the invariant holds, unscheduling leaves a job with its expression and no cron trigger. */
  lemma UnscheduleParks(w: World, s: Store, site: string, id: string, stamp: string, tk: TriggerKey)
    requires WellBehaved(w) && Inv(w, s) && IsCronOf(s, JobKey(id, site), tk)
    ensures var key, o := JobKey(id, site), SetState(w, s, site, "unschedule", id, stamp);
            && key in s.jobs && o.ok && !HasCron(o.store, key)
            && o.store.triggers == s.triggers - {tk}
            && o.store.jobs == s.jobs[key := s.jobs[key].(enabled := Some(false))]
  {
    hide SetState;
    SetStateLaw(w, s, site, "unschedule", id, stamp);
    assert Agrees(w, s, tk);
  }
}
