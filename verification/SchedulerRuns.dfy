/** What every run of the scheduler's steps keeps. */
module SchedulerRuns {
  import opened Options
  import opened Scheduler

  /** Every trigger belongs to a stored job; a cron trigger is the only one of its job and fires by the stored
      expression, which is valid. */
  ghost predicate Inv(w: World, s: Store) {
    && (forall tk :: tk in s.triggers ==> s.triggers[tk].job in s.jobs)
    && (forall tk, tl ::
          && tk in s.triggers && s.triggers[tk].kind.Cron?
          && tl in s.triggers && s.triggers[tl].kind.Cron?
          && s.triggers[tk].job == s.triggers[tl].job
          ==> tk == tl)
    && (forall tk :: tk in s.triggers && s.triggers[tk].kind.Cron? ==> Agrees(w, s, tk))
  }

  ghost predicate Agrees(w: World, s: Store, tk: TriggerKey)
    requires tk in s.triggers && s.triggers[tk].kind.Cron? && s.triggers[tk].job in s.jobs
  {
    var c := s.triggers[tk].kind.expression;
    w.valid(c) && s.jobs[s.triggers[tk].job].cron == Some(c)
  }

  lemma SaveKeepsInv(w: World, s: Store, key: JobKey, data: JobData)
    requires Inv(w, s)
    requires forall tk :: tk in CronTriggersOf(s, key) ==> data.cron == Some(s.triggers[tk].kind.expression)
    ensures Inv(w, Save(s, key, data))
  {
    var s' := Save(s, key, data);
    forall tk | tk in s'.triggers && s'.triggers[tk].kind.Cron? ensures Agrees(w, s', tk) {
      assert Agrees(w, s, tk);
      if s.triggers[tk].job == key {
        assert tk in CronTriggersOf(s, key);
      }
    }
  }

  lemma AddKeepsInv(w: World, s: Store, tk: TriggerKey, t: Trigger)
    requires Inv(w, s)
    requires t.kind.Cron? && t.job in s.jobs ==>
               && CronTriggersOf(s, t.job) == {}
               && w.valid(t.kind.expression) && s.jobs[t.job].cron == Some(t.kind.expression)
    ensures Inv(w, AddTrigger(s, tk, t).store)
  {
    if AddTrigger(s, tk, t).ok {
      var s' := AddTrigger(s, tk, t).store;
      forall tl | tl in s.triggers && s.triggers[tl].kind.Cron? && t.kind.Cron? ensures s.triggers[tl].job != t.job {
        assert s.triggers[tl].job == t.job ==> tl in CronTriggersOf(s, t.job);
      }
      forall tl | tl in s'.triggers && s'.triggers[tl].kind.Cron? ensures Agrees(w, s', tl) {
        if tl != tk {
          assert Agrees(w, s, tl);
        }
      }
    }
  }

  lemma RemoveKeepsInv(w: World, s: Store, tk: TriggerKey)
    requires Inv(w, s)
    ensures Inv(w, RemoveTrigger(s, tk))
  {
    var s' := RemoveTrigger(s, tk);
    forall tl | tl in s'.triggers && s'.triggers[tl].kind.Cron? ensures Agrees(w, s', tl) {
      assert Agrees(w, s, tl);
    }
  }

  lemma ScheduleKeepsInv(w: World, s: Store, key: JobKey, data: JobData, id: string, group: string, stamp: string)
    requires Inv(w, s)
    ensures Inv(w, ScheduleJob(w, s, key, data, id, group, stamp).store)
  {
    hide Inv;
    if TriggersOf(s, key) == {} {
      forall tk ensures tk !in CronTriggersOf(s, key) {
        assert tk !in TriggersOf(s, key);
      }
      var saved := Save(s, key, data.(enabled := Some(true)));
      SaveKeepsInv(w, s, key, data.(enabled := Some(true)));
      assert CronTriggersOf(saved, key) == {};
      if IsValid(w, data.cron) {
        AddKeepsInv(w, saved, CronKey(id, stamp, group), Trigger(key, Cron(data.cron.value), false));
      }
    }
  }

  /** With one cron trigger at most, the first is the one. */
  lemma FirstIsOnly(w: World, s: Store, key: JobKey, tk: TriggerKey)
    requires WellBehaved(w) && Inv(w, s)
    ensures tk in CronTriggersOf(s, key) <==> FirstCron(w, s, key) == Some(tk)
    ensures forall tl :: tl in CronTriggersOf(s, key) ==> FirstCron(w, s, key) == Some(tl)
  {
    if CronTriggersOf(s, key) != {} {
      assert w.first(CronTriggersOf(s, key)) in CronTriggersOf(s, key);
    }
  }

  lemma RescheduleKeepsInv(w: World, s: Store, key: JobKey, data: JobData, cron: Option<string>)
    requires WellBehaved(w) && Inv(w, s) && key in s.jobs
    ensures var o := Reschedule(w, s, key, data, cron);
            && Inv(w, o.store)
            && (o.ok <==> CronTriggersOf(s, key) == {} || IsValid(w, cron))
            && (if o.ok then o.store.jobs == s.jobs[key := data.(cron := cron)] else o.store == s)
            && (CronTriggersOf(s, key) == {} ==> o.store.triggers == s.triggers)
            && forall tk :: tk in CronTriggersOf(s, key) && o.ok ==>
                 o.store.triggers == s.triggers[tk := Trigger(key, Cron(cron.value), false)]
  {
    match FirstCron(w, s, key)
    case Some(tk) =>
      FirstIsOnly(w, s, key, tk);
      if IsValid(w, cron) {
        var gone := RemoveTrigger(s, tk);
        RemoveKeepsInv(w, s, tk);
        assert CronTriggersOf(gone, key) == {};
        SaveKeepsInv(w, gone, key, data.(cron := cron));
        var saved := Save(gone, key, data.(cron := cron));
        assert CronTriggersOf(saved, key) == {};
        AddKeepsInv(w, saved, tk, Trigger(key, Cron(cron.value), false));
        assert AddTrigger(saved, tk, Trigger(key, Cron(cron.value), false)).store
            == Reschedule(w, s, key, data, cron).store;
      }
    case None => SaveKeepsInv(w, s, key, data.(cron := cron));
  }

  lemma DeleteCronKeepsInv(w: World, s: Store, key: JobKey, data: JobData, forced: bool)
    requires WellBehaved(w) && Inv(w, s)
    ensures Inv(w, DeleteCronTrigger(w, s, key, data, forced))
  {
    match FirstCron(w, s, key)
    case Some(tk) =>
      FirstIsOnly(w, s, key, tk);
      var d := data.(cron := Some(s.triggers[tk].kind.expression), enabled := Some(false),
                     forcefullyDisabled := if forced then Some(true) else data.forcefullyDisabled);
      SaveKeepsInv(w, s, key, d);
      RemoveKeepsInv(w, Save(s, key, d), tk);
    case None =>
  }

  lemma DeleteJobKeepsInv(w: World, s: Store, key: JobKey)
    requires Inv(w, s)
    ensures Inv(w, DeleteJob(s, key))
  {
    var s' := DeleteJob(s, key);
    forall tk | tk in s'.triggers ensures s'.triggers[tk].job in s'.jobs && s'.triggers[tk] == s.triggers[tk] {
      assert tk in TriggersOf(s, s.triggers[tk].job);
    }
    forall tk | tk in s'.triggers && s'.triggers[tk].kind.Cron? ensures Agrees(w, s', tk) {
      assert Agrees(w, s, tk);
    }
  }

  // ---- the start of a site

  /** The application insists on another expression than the one that a trigger of the job fires by. */
  ghost predicate Overridden(w: World, s: Store, site: string, e: Entry) {
    var d, key := MergedData(w, s, site, e), KeyOf(site, e);
    && Flag(d.forceState) && e.job.data.Some? && e.job.data.value.cron.Some?
    && exists tk :: tk in CronTriggersOf(s, key) && s.triggers[tk].kind.expression != e.job.data.value.cron.value
  }

  lemma MergedCron(w: World, s: Store, site: string, e: Entry, tk: TriggerKey)
    requires WellBehaved(w) && Inv(w, s) && tk in CronTriggersOf(s, KeyOf(site, e))
    ensures MergedData(w, s, site, e).cron == Some(s.triggers[tk].kind.expression) <==> !Overridden(w, s, site, e)
  {
    FirstIsOnly(w, s, KeyOf(site, e), tk);
    assert Agrees(w, s, tk);
  }

  /** Starting a bean keeps the invariant exactly when it does not force another expression on a scheduled job. */
  lemma StartEntryKeepsInv(w: World, s: Store, site: string, e: Entry, stamp: string)
    requires WellBehaved(w) && Inv(w, s)
    ensures Inv(w, StartEntry(w, s, site, e, stamp)) <==> !Overridden(w, s, site, e)
  {
    var d, key := MergedData(w, s, site, e), KeyOf(site, e);
    var saved := Save(s, key, d);
    if Overridden(w, s, site, e) {
      OverrideBreaksInv(w, s, site, e, stamp);
    } else {
      forall tk | tk in CronTriggersOf(s, key) ensures d.cron == Some(s.triggers[tk].kind.expression) {
        MergedCron(w, s, site, e, tk);
      }
      SaveKeepsInv(w, s, key, d);
      ScheduleKeepsInv(w, saved, key, d, key.name, site, stamp);
    }
  }

  lemma OverrideBreaksInv(w: World, s: Store, site: string, e: Entry, stamp: string)
    requires WellBehaved(w) && Inv(w, s) && Overridden(w, s, site, e)
    ensures !Inv(w, StartEntry(w, s, site, e, stamp))
  {
    var d, key := MergedData(w, s, site, e), KeyOf(site, e);
    var tk :| tk in CronTriggersOf(s, key) && s.triggers[tk].kind.expression != e.job.data.value.cron.value;
    MergedCron(w, s, site, e, tk);
    var saved := Save(s, key, d);
    assert tk in TriggersOf(saved, key);
    assert StartEntry(w, s, site, e, stamp) == saved;
    assert !Agrees(w, saved, tk);
  }

  /** A store with one enabled job, scheduled by `c`. */
  function OneJob(key: JobKey, tk: TriggerKey, c: string): Store {
    Store(map[key := EMPTY.(cron := Some(c), enabled := Some(true))], map[tk := Trigger(key, Cron(c), false)])
  }

  lemma OneJobKeepsInv(w: World, key: JobKey, tk: TriggerKey, c: string)
    requires w.valid(c)
    ensures Inv(w, OneJob(key, tk, c))
    ensures TriggersOf(OneJob(key, tk, c), key) == {tk} && CronTriggersOf(OneJob(key, tk, c), key) == {tk}
  {
    assert Agrees(w, OneJob(key, tk, c), tk);
  }

  /** A job scheduled by `c`, whose application forces the valid expression `x`: the trigger keeps firing by `c`. */
  lemma ForcedStateBreaksInv(w: World, c: string, x: string, stamp: string) returns (s: Store, e: Entry)
    requires WellBehaved(w) && w.valid(c) && w.valid(x) && c != x
    ensures Inv(w, s) && !Inv(w, StartEntry(w, s, "site", e, stamp))
    ensures StoredData(StartEntry(w, s, "site", e, stamp), KeyOf("site", e)).cron == Some(x)
  {
    hide Inv, KeyOf, ScheduleJob;
    e := Entry("app", "bean", Scheduled("Job", Some(EMPTY.(forceState := Some(true), cron := Some(x)))));
    var key, tk := KeyOf("site", e), TriggerKey("trigger", "site");
    s := OneJob(key, tk, c);
    OneJobKeepsInv(w, key, tk, c);
    assert tk in CronTriggersOf(s, key);
    StartEntryKeepsInv(w, s, "site", e, stamp);
    assert tk in TriggersOf(s, key);
    ForcedCron(w, s, "site", e, stamp, tk, x);
  }

  lemma ForcedCron(w: World, s: Store, site: string, e: Entry, stamp: string, tk: TriggerKey, x: string)
    requires tk in TriggersOf(s, KeyOf(site, e))
    requires e.job.data == Some(EMPTY.(forceState := Some(true), cron := Some(x)))
    ensures StoredData(StartEntry(w, s, site, e, stamp), KeyOf(site, e)).cron == Some(x)
  {
    hide KeyOf;
    assert tk in TriggersOf(Save(s, KeyOf(site, e), MergedData(w, s, site, e)), KeyOf(site, e));
  }

  ghost predicate Unforced(e: Entry) {
    e.job.data.Some? ==> !Flag(e.job.data.value.forceState)
  }

  /** No stored job has its state forced by its application. */
  ghost predicate NoneForced(s: Store) {
    forall key :: key in s.jobs ==> !Flag(s.jobs[key].forceState)
  }

  lemma MergeKeepsUnforced(w: World, d: JobData, site: string, e: Entry)
    requires !Flag(d.forceState) && Unforced(e)
    ensures !Flag(Merge(w, d, site, e.app, e.job, e.bean).forceState)
  {
  }

  lemma StartEntryKeepsUnforced(w: World, s: Store, site: string, e: Entry, stamp: string)
    requires NoneForced(s) && Unforced(e)
    ensures NoneForced(StartEntry(w, s, site, e, stamp)) && !Overridden(w, s, site, e)
  {
    hide Merge, KeyOf, Unforced, CronKey;
    MergeKeepsUnforced(w, StoredData(s, KeyOf(site, e)), site, e);
  }

  lemma {:induction false} StartEntriesKeepInv(w: World, s: Store, site: string, es: seq<Entry>, stamp: string)
    requires WellBehaved(w) && Inv(w, s) && NoneForced(s)
    requires forall i :: 0 <= i < |es| ==> Unforced(es[i])
    ensures Inv(w, StartEntries(w, s, site, es, stamp)) && NoneForced(StartEntries(w, s, site, es, stamp))
    decreases |es|
  {
    hide Inv, NoneForced, StartEntry, Overridden, Unforced;
    if es != [] {
      StartEntryKeepsInv(w, s, site, es[0], stamp);
      StartEntryKeepsUnforced(w, s, site, es[0], stamp);
      StartEntriesKeepInv(w, StartEntry(w, s, site, es[0], stamp), site, es[1..], stamp);
    }
  }

  lemma ValidateJobKeepsInv(w: World, s: Store, apps: seq<App>, key: JobKey)
    requires WellBehaved(w) && Inv(w, s)
    ensures Inv(w, ValidateJob(w, s, apps, key).store)
    ensures NoneForced(s) ==> NoneForced(ValidateJob(w, s, apps, key).store)
  {
    hide Inv;
    if key in s.jobs && Named(w, key, s.jobs[key]).Some? {
      var d := Named(w, key, s.jobs[key]).value;
      forall tk | tk in CronTriggersOf(s, key) ensures d.cron == Some(s.triggers[tk].kind.expression) {
        CronIsStored(w, s, key, tk);
      }
      SaveKeepsInv(w, s, key, d);
      DeleteCronKeepsInv(w, Save(s, key, d), key, d, true);
    }
  }

  lemma CronIsStored(w: World, s: Store, key: JobKey, tk: TriggerKey)
    requires Inv(w, s) && tk in CronTriggersOf(s, key)
    ensures key in s.jobs && s.jobs[key].cron == Some(s.triggers[tk].kind.expression)
    ensures w.valid(s.triggers[tk].kind.expression)
  {
    assert Agrees(w, s, tk);
  }

  lemma {:induction false} ValidateJobsKeepInv(w: World, s: Store, apps: seq<App>, keys: seq<JobKey>)
    requires WellBehaved(w) && Inv(w, s)
    ensures Inv(w, ValidateJobs(w, s, apps, keys).store)
    ensures NoneForced(s) ==> NoneForced(ValidateJobs(w, s, apps, keys).store)
    decreases |keys|
  {
    hide Inv, NoneForced, ValidateJob;
    if keys != [] {
      ValidateJobKeepsInv(w, s, apps, keys[0]);
      if ValidateJob(w, s, apps, keys[0]).ok {
        ValidateJobsKeepInv(w, ValidateJob(w, s, apps, keys[0]).store, apps, keys[1..]);
      }
    }
  }

  // ---- all steps

  ghost predicate StepUnforced(step: Step) {
    step.Starting? ==> forall i :: 0 <= i < |Entries(step.apps)| ==> Unforced(Entries(step.apps)[i])
  }

  lemma SetStateKeepsInv(w: World, s: Store, site: string, action: string, id: string, stamp: string)
    requires WellBehaved(w) && Inv(w, s)
    ensures Inv(w, SetState(w, s, site, action, id, stamp).store)
  {
    hide Inv, ScheduleJob, DeleteCronTrigger, DeleteJob;
    var key := JobKey(id, site);
    if key in s.jobs {
      ScheduleKeepsInv(w, s, key, s.jobs[key], id, site, stamp);
      DeleteCronKeepsInv(w, s, key, s.jobs[key], false);
      AddKeepsInv(w, s, SimpleKey(id, stamp, site), Trigger(key, Simple, false));
      DeleteJobKeepsInv(w, s, key);
    }
  }

  lemma SetStateKeepsUnforced(w: World, s: Store, site: string, action: string, id: string, stamp: string)
    requires WellBehaved(w) && NoneForced(s)
    ensures NoneForced(SetState(w, s, site, action, id, stamp).store)
  {
  }

  lemma UpdateKeepsInv(w: World, s: Store, site: string, id: string, cron: Option<string>)
    requires WellBehaved(w) && Inv(w, s) && NoneForced(s)
    ensures Inv(w, Update(w, s, site, id, cron).store) && NoneForced(Update(w, s, site, id, cron).store)
  {
    hide Inv;
    var key := JobKey(id, site);
    if key in s.jobs {
      RescheduleKeepsInv(w, s, key, s.jobs[key], cron);
    }
  }

  lemma CompletingKeepsInv(w: World, s: Store, tk: TriggerKey)
    requires WellBehaved(w) && Inv(w, s)
    ensures Inv(w, Take(w, s, Completing(tk)))
  {
    var s' := Take(w, s, Completing(tk));
    forall tl | tl in s'.triggers && s'.triggers[tl].kind.Cron? ensures Agrees(w, s', tl) {
      assert Agrees(w, s, tl);
    }
  }

  lemma StartKeepsInv(w: World, s: Store, step: Step)
    requires WellBehaved(w) && Inv(w, s) && NoneForced(s) && step.Starting? && StepUnforced(step)
    ensures Inv(w, Take(w, s, step)) && NoneForced(Take(w, s, step))
  {
    hide Inv, NoneForced, StartEntries, ValidateJobs, Entries;
    if step.keys.Some? {
      ValidateJobsKeepInv(w, s, step.apps, step.keys.value);
    }
    var o := ValidateIf(w, s, step.apps, step.keys);
    StartEntriesKeepInv(w, o.store, step.site, Entries(step.apps), step.stamp);
  }

  lemma TakeKeepsInv(w: World, s: Store, step: Step)
    requires WellBehaved(w) && Inv(w, s) && NoneForced(s) && StepUnforced(step)
    ensures Inv(w, Take(w, s, step)) && NoneForced(Take(w, s, step))
  {
    hide Inv, SetState, Update, Start;
    match step
    case Acting(site, action, id, stamp) =>
      SetStateKeepsInv(w, s, site, action, id, stamp);
      SetStateKeepsUnforced(w, s, site, action, id, stamp);
    case Updating(site, id, cron) => UpdateKeepsInv(w, s, site, id, cron);
    case Starting(_, _, _, _) => StartKeepsInv(w, s, step);
    case Completing(tk) => CompletingKeepsInv(w, s, tk);
    case Expiring(tk) => RemoveKeepsInv(w, s, tk);
  }

  /** Over every run whose site starts do not force the state of jobs, every trigger belongs to a stored job, every
      job has at most one cron trigger, and that one fires by the job's stored expression. */
  lemma {:induction false} RunKeepsInv(w: World, s: Store, steps: seq<Step>)
    requires WellBehaved(w) && Inv(w, s) && NoneForced(s)
    requires forall i :: 0 <= i < |steps| ==> StepUnforced(steps[i])
    ensures Inv(w, Run(w, s, steps)) && NoneForced(Run(w, s, steps))
    ensures forall key :: |CronTriggersOf(Run(w, s, steps), key)| <= 1
    decreases |steps|
  {
    hide Take, Inv, NoneForced, StepUnforced;
    if steps == [] {
      forall key ensures |CronTriggersOf(s, key)| <= 1 {
        AtMostOneCron(w, s, key);
      }
    } else {
      TakeKeepsInv(w, s, steps[0]);
      RunKeepsInv(w, Take(w, s, steps[0]), steps[1..]);
    }
  }

  lemma AtMostOneCron(w: World, s: Store, key: JobKey)
    requires Inv(w, s)
    ensures |CronTriggersOf(s, key)| <= 1
  {
    var c := CronTriggersOf(s, key);
    if c != {} {
      var tk :| tk in c;
      assert c == {tk};
    }
  }
}
