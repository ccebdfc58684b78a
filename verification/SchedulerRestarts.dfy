/** What a job's state is worth after the site has been started again. */
module SchedulerRestarts {
  import opened Options
  import opened Scheduler
  import opened SchedulerMerge
  import opened SchedulerRuns
  import opened SchedulerViews
  import opened SchedulerValidation

  function Supplied(e: Entry): JobData {
    DataOf(e.job)
  }

  /** The flags that a start works with: the application's, or else the stored ones. */
  predicate ForceStateAt(d: JobData, e: Entry) {
    Flag(Or(Supplied(e).forceState, d.forceState))
  }

  predicate FlagAt(d: JobData, e: Entry) {
    Flag(Or(Supplied(e).forcefullyDisabled, d.forcefullyDisabled))
  }

  // ---- a job disabled by force

  /** The disabled job `d`: its data after `DeleteCronTrigger`. */
  function Disabled(d: JobData, c: string, forced: bool): JobData {
    d.(
      cron := Some(c),
      enabled := Some(false),
      forcefullyDisabled := if forced then Some(true) else d.forcefullyDisabled)
  }

  lemma DeleteOnlyTrigger(w: World, s: Store, key: JobKey, tk: TriggerKey, c: string, forced: bool)
    requires WellBehaved(w) && key in s.jobs
    requires TriggersOf(s, key) == {tk} && s.triggers[tk].kind == Cron(c)
    ensures ViewOf(DeleteCronTrigger(w, s, key, s.jobs[key], forced), key)
         == View(Some(Disabled(s.jobs[key], c, forced)), map[])
    ensures DeleteCronTrigger(w, s, key, s.jobs[key], forced).triggers == s.triggers - {tk}
  {
    assert tk in TriggersOf(s, key);
    assert tk in CronTriggersOf(s, key);
    forall tl | tl in CronTriggersOf(s, key) ensures tl == tk {
      assert tl in TriggersOf(s, key);
    }
    assert CronTriggersOf(s, key) == {tk};
    assert FirstCron(w, s, key) == Some(tk);
    var s' := DeleteCronTrigger(w, s, key, s.jobs[key], forced);
    forall tl | tl in s'.triggers ensures s'.triggers[tl].job != key {
      assert tl in s.triggers && tl != tk;
      assert tl !in TriggersOf(s, key);
    }
    assert ViewOf(s', key).triggers == map[];
  }

  /** One trigger, firing by `c`; enabled; not marked as disabled by force. */
  ghost predicate Restored(v: View, c: string) {
    && v.data.Some? && v.data.value.cron == Some(c)
    && Flag(v.data.value.enabled) && !Flag(v.data.value.forcefullyDisabled)
    && exists tk :: tk in v.triggers && v.triggers[tk].kind == Cron(c) && v.triggers.Keys == {tk}
  }

  /** What the application and the stored flags must say for the start to undo the disabling: the mark counts unless
      the state is forced, and then the application itself enables the job with no other expression. */
  predicate Reenables(d: JobData, e: Entry, c: string) {
    if ForceStateAt(d, e) then Flag(Supplied(e).enabled) && (Supplied(e).cron.None? || Supplied(e).cron == Some(c))
    else FlagAt(d, e)
  }

  lemma MergeDisabled(w: World, d: JobData, site: string, e: Entry, c: string)
    requires w.valid(c) && !w.blank(c)
    requires d.cron == Some(c) && d.enabled == Some(false)
    ensures var m := Merge(w, d, site, e.app, e.job, e.bean);
            && (Flag(m.enabled) && m.cron == Some(c) <==> Reenables(d, e, c))
            && !Flag(m.forcefullyDisabled)
            && (!ForceStateAt(d, e) ==> m.cron == Some(c) && m.enabled == Some(FlagAt(d, e)))
            && Flag(m.forceState) == ForceStateAt(d, e)
  {
  }

  lemma RestoredView(w: World, d: JobData, site: string, e: Entry, c: string, stamp: string, taken: bool)
    requires w.valid(c) && !w.blank(c)
    requires d.cron == Some(c) && d.enabled == Some(false)
    ensures Restored(StartView(w, View(Some(d), map[]), site, e, stamp, taken), c) <==> Reenables(d, e, c) && !taken
  {
    hide Merge, Reenables;
    MergeDisabled(w, d, site, e, c);
    var v, m := StartView(w, View(Some(d), map[]), site, e, stamp, taken), Merge(w, d, site, e.app, e.job, e.bean);
    if Flag(m.enabled) && m.cron == Some(c) && !taken {
      var tk := EntryTrigger(site, e, stamp);
      assert tk in v.triggers && v.triggers.Keys == {tk};
    }
  }

  /** A job without triggers, but for its bean's name, is as it was. */
  ghost predicate Idle(v: View, d: JobData) {
    v.triggers == map[] && v.data.Some? && v.data.value.(beanName := d.beanName) == d
  }

  lemma ValidateKeepsIdle(w: World, s: Store, apps: seq<App>, key: JobKey, d: JobData)
    requires WellBehaved(w) && Idle(ViewOf(s, key), d)
    ensures Idle(ViewOf(ValidateJob(w, s, apps, key).store, key), d)
  {
    if Named(w, key, s.jobs[key]).Some? {
      var n := Named(w, key, s.jobs[key]).value;
      SaveFrame(s, key, n, key);
      NoTriggersMeansEmpty(Save(s, key, n), key);
      NoCronWithoutTriggers(Save(s, key, n), key);
    }
  }

  lemma {:induction false} ValidationsKeepIdle(w: World, s: Store, apps: seq<App>, keys: seq<JobKey>, key: JobKey,
                                                 d: JobData)
    requires WellBehaved(w) && Idle(ViewOf(s, key), d)
    ensures Idle(ViewOf(ValidateJobs(w, s, apps, keys).store, key), d)
    decreases |keys|
  {
    hide Idle, ViewOf, ValidateJob;
    if keys != [] {
      if keys[0] == key {
        ValidateKeepsIdle(w, s, apps, key, d);
      } else {
        ValidateFrame(w, s, apps, keys[0], key);
      }
      if ValidateJob(w, s, apps, keys[0]).ok {
        ValidationsKeepIdle(w, ValidateJob(w, s, apps, keys[0]).store, apps, keys[1..], key, d);
      }
    }
  }

  lemma IdleIsRestored(w: World, s: Store, site: string, es: seq<Entry>, e: Entry, stamp: string, d: JobData, c: string)
    requires WellBehaved(w) && DistinctKeys(site, es) && e in es
    requires Idle(ViewOf(s, KeyOf(site, e)), d) && d.cron == Some(c) && w.valid(c) && d.enabled == Some(false)
    ensures Restored(ViewOf(StartEntries(w, s, site, es, stamp), KeyOf(site, e)), c)
       <==> Reenables(d, e, c) && EntryTrigger(site, e, stamp) !in s.triggers
  {
    hide Restored, Reenables, ViewOf, StartEntries, StartView, KeyOf;
    var i :| 0 <= i < |es| && es[i] == e;
    var v := ViewOf(s, KeyOf(site, e));
    StartEntriesView(w, s, site, es, stamp, i);
    RestoredView(w, v.data.value, site, e, c, stamp, EntryTrigger(site, e, stamp) in s.triggers);
    SameFlagsReenable(d, v.data.value, e, c);
  }

  lemma IdleIsNotRestored(v: View, d: JobData, c: string)
    requires Idle(v, d)
    ensures !Restored(v, c)
  {
  }

  /** A disabled job without triggers after a start of its site, with validation or without. */
  lemma StartRestores(w: World, s: Store, site: string, apps: seq<App>, keys: Option<seq<JobKey>>, e: Entry,
                      stamp: string, d: JobData, c: string)
    requires WellBehaved(w) && Inv(w, s) && DistinctKeys(site, Entries(apps)) && e in Entries(apps)
    requires Idle(ViewOf(s, KeyOf(site, e)), d) && d.cron == Some(c) && w.valid(c) && d.enabled == Some(false)
    requires keys.Some? ==> EachOnce(keys.value)
    ensures Restored(ViewOf(Start(w, s, site, apps, keys, stamp).store, KeyOf(site, e)), c)
       <==> Reenables(d, e, c) && AllNamed(w, s, keys) && NameFree(w, s, apps, keys, EntryTrigger(site, e, stamp))
  {
    hide Restored, Reenables, Idle, ViewOf, StartEntries, ValidateJobs, Inv;
    hide Entries, KeyOf, WellBehaved, HasName, NameFree;
    var key, valid := KeyOf(site, e), ValidateIf(w, s, apps, keys);
    if keys.Some? {
      ValidationThrows(w, s, apps, keys.value);
      ValidationsKeepIdle(w, s, apps, keys.value, key, d);
    }
    if valid.ok {
      ValidationFrees(w, s, apps, keys, EntryTrigger(site, e, stamp));
      IdleIsRestored(w, valid.store, site, Entries(apps), e, stamp, d, c);
    } else {
      IdleIsNotRestored(ViewOf(valid.store, key), d, c);
    }
  }

  lemma SameFlagsReenable(d: JobData, d': JobData, e: Entry, c: string)
    requires d'.(beanName := d.beanName) == d
    ensures Reenables(d, e, c) == Reenables(d', e, c)
  {
  }

  /** A job whose only trigger is a cron trigger is disabled, by force or by a user, and the site is started, with
      validation or without. The trigger is there again with its expression exactly if `Reenables` says so, no listed
      job makes validation throw, and the trigger's new name is not taken. All is seen before the start. */
  lemma RestartUndoesDisabling(w: World, s: Store, site: string, apps: seq<App>, keys: Option<seq<JobKey>>, e: Entry,
                               stamp: string, tk: TriggerKey, c: string, forced: bool)
    requires WellBehaved(w) && Inv(w, s) && DistinctKeys(site, Entries(apps)) && e in Entries(apps)
    requires TriggersOf(s, KeyOf(site, e)) == {tk} && s.triggers[tk].kind == Cron(c)
    requires keys.Some? ==> EachOnce(keys.value)
    ensures KeyOf(site, e) in s.jobs
    ensures var key := KeyOf(site, e);
            var off := DeleteCronTrigger(w, s, key, s.jobs[key], forced);
            Restored(ViewOf(Start(w, off, site, apps, keys, stamp).store, key), c)
            <==> && Reenables(Disabled(s.jobs[key], c, forced), e, c)
                 && AllNamed(w, off, keys)
                 && NameFree(w, off, apps, keys, EntryTrigger(site, e, stamp))
  {
    hide Restored, Reenables, ViewOf, Start, Inv, DeleteCronTrigger, Entries, AllNamed, NameFree, KeyOf;
    var key := KeyOf(site, e);
    OnlyTriggerIsStored(w, s, key, tk, c);
    DeleteOnlyTrigger(w, s, key, tk, c, forced);
    DeleteCronKeepsInv(w, s, key, s.jobs[key], forced);
    var off := DeleteCronTrigger(w, s, key, s.jobs[key], forced);
    StartRestores(w, off, site, apps, keys, e, stamp, Disabled(s.jobs[key], c, forced), c);
  }

  lemma OnlyTriggerIsStored(w: World, s: Store, key: JobKey, tk: TriggerKey, c: string)
    requires Inv(w, s) && TriggersOf(s, key) == {tk} && s.triggers[tk].kind == Cron(c)
    ensures key in s.jobs && s.jobs[key].cron == Some(c) && w.valid(c)
  {
    assert tk in TriggersOf(s, key);
    assert tk in CronTriggersOf(s, key);
    CronIsStored(w, s, key, tk);
  }

  /** Where neither the job nor its application forces the state or touches the mark, the mark alone decides. */
  lemma UnforcedIsRestored(w: World, s: Store, site: string, apps: seq<App>, keys: Option<seq<JobKey>>, e: Entry,
                           stamp: string, tk: TriggerKey, c: string, forced: bool)
    requires WellBehaved(w) && Inv(w, s) && DistinctKeys(site, Entries(apps)) && e in Entries(apps)
    requires TriggersOf(s, KeyOf(site, e)) == {tk} && s.triggers[tk].kind == Cron(c) && KeyOf(site, e) in s.jobs
    requires keys.Some? ==> EachOnce(keys.value)
    requires !ForceStateAt(s.jobs[KeyOf(site, e)], e) && Supplied(e).forcefullyDisabled.None?
    ensures var key := KeyOf(site, e);
            var off := DeleteCronTrigger(w, s, key, s.jobs[key], forced);
            Restored(ViewOf(Start(w, off, site, apps, keys, stamp).store, key), c)
            <==> && (forced || Flag(s.jobs[key].forcefullyDisabled))
                 && AllNamed(w, off, keys)
                 && NameFree(w, off, apps, keys, EntryTrigger(site, e, stamp))
  {
    hide Restored, ViewOf, Start, Inv, DeleteCronTrigger, Entries, AllNamed, NameFree;
    RestartUndoesDisabling(w, s, site, apps, keys, e, stamp, tk, c, forced);
  }

  lemma OneBean(app: string, bean: string, job: Scheduled)
    ensures Entries([App(app, [Bean(bean, Some(job))])]) == [Entry(app, bean, job)]
  {
    var apps := [App(app, [Bean(bean, Some(job))])];
    assert apps[0].beans[1..] == [] && apps[1..] == [];
    assert BeanEntries(app, apps[0].beans) == [Entry(app, bean, job)] + BeanEntries(app, []);
  }

  /** A job disabled by force whose application forces its state, but does not enable it: it stays disabled. */
  lemma ForcedStateStaysDisabled(w: World, c: string, stamp: string) returns (s: Store, apps: seq<App>, e: Entry)
    requires WellBehaved(w) && w.valid(c)
    ensures Inv(w, s) && Entries(apps) == [e]
    ensures var key := KeyOf("site", e);
            && key in s.jobs && Flag(s.jobs[key].enabled) && |CronTriggersOf(s, key)| == 1
            && var off := DeleteCronTrigger(w, s, key, s.jobs[key], true);
            var on := Start(w, off, "site", apps, None, stamp).store;
            TriggersOf(on, key) == {} && key in on.jobs && !Flag(on.jobs[key].enabled)
  {
    hide StartEntries, DeleteCronTrigger, Inv, Entries, KeyOf, ViewOf, TriggersOf, CronTriggersOf;
    var job := Scheduled("Job", Some(EMPTY.(forceState := Some(true))));
    e := Entry("app", "bean", job);
    apps := [App("app", [Bean("bean", Some(job))])];
    OneBean("app", "bean", job);
    var key, tk := KeyOf("site", e), TriggerKey("trigger", "site");
    s := OneJob(key, tk, c);
    OneJobKeepsInv(w, key, tk, c);
    DeleteOnlyTrigger(w, s, key, tk, c, true);
    var off := DeleteCronTrigger(w, s, key, s.jobs[key], true);
    var on := StartEntries(w, off, "site", [e], stamp);
    StartEntriesView(w, off, "site", [e], stamp, 0);
    NoTriggersMeansEmpty(on, key);
    DataOfView(on, key);
  }

  // ---- a mark that lingers

  /** Scheduling does not clear the mark of a job that was disabled by force. */
  lemma SchedulingKeepsMark(w: World, s: Store, key: JobKey, tk: TriggerKey, c: string, stamp: string)
    requires WellBehaved(w) && Inv(w, s) && key in s.jobs
    requires TriggersOf(s, key) == {tk} && s.triggers[tk].kind == Cron(c)
    requires var off := DeleteCronTrigger(w, s, key, s.jobs[key], true);
             CronKey(key.name, stamp, key.group) !in off.triggers
    ensures var off := DeleteCronTrigger(w, s, key, s.jobs[key], true);
            var on := SetState(w, off, key.group, ACTION_SCHEDULE, key.name, stamp).store;
            var tl := CronKey(key.name, stamp, key.group);
            && Inv(w, on) && key in on.jobs && TriggersOf(on, key) == {tl} && on.triggers[tl].kind == Cron(c)
            && on.jobs[key] == Disabled(s.jobs[key], c, true).(enabled := Some(true))
  {
    hide Inv, DeleteCronTrigger, ScheduleJob;
    OnlyTriggerIsStored(w, s, key, tk, c);
    DeleteOnlyTrigger(w, s, key, tk, c, true);
    DeleteCronKeepsInv(w, s, key, s.jobs[key], true);
    var off := DeleteCronTrigger(w, s, key, s.jobs[key], true);
    DataOfView(off, key);
    assert JobKey(key.name, key.group) == key;
    var on := SetState(w, off, key.group, ACTION_SCHEDULE, key.name, stamp).store;
    ScheduleKeepsInv(w, off, key, off.jobs[key], key.name, key.group, stamp);
    ScheduleView(w, off, key, off.jobs[key], key.name, key.group, stamp);
    DataOfView(on, key);
    TriggersOfView(on, key);
  }

  lemma TriggersOfView(s: Store, key: JobKey)
    ensures TriggersOf(s, key) == ViewOf(s, key).triggers.Keys
    ensures forall tk :: tk in TriggersOf(s, key) ==> ViewOf(s, key).triggers[tk] == s.triggers[tk]
  {
  }

  /** A job disabled by force, scheduled and then unscheduled by a user: the next start of the site schedules it. */
  lemma MarkOutlivesUser(w: World, s: Store, site: string, apps: seq<App>, keys: Option<seq<JobKey>>, e: Entry,
                         stamp: string, tk: TriggerKey, c: string, user: string)
    requires WellBehaved(w) && Inv(w, s) && DistinctKeys(site, Entries(apps)) && e in Entries(apps)
    requires TriggersOf(s, KeyOf(site, e)) == {tk} && s.triggers[tk].kind == Cron(c) && KeyOf(site, e) in s.jobs
    requires keys.Some? ==> EachOnce(keys.value)
    requires !ForceStateAt(s.jobs[KeyOf(site, e)], e) && Supplied(e).forcefullyDisabled.None?
    requires var off := DeleteCronTrigger(w, s, KeyOf(site, e), s.jobs[KeyOf(site, e)], true);
             CronKey(KeyOf(site, e).name, user, site) !in off.triggers
    ensures var key := KeyOf(site, e);
            var forced := DeleteCronTrigger(w, s, key, s.jobs[key], true);
            var on := SetState(w, forced, site, ACTION_SCHEDULE, key.name, user).store;
            && key in on.jobs
            && var off := DeleteCronTrigger(w, on, key, on.jobs[key], false);
            Restored(ViewOf(Start(w, off, site, apps, keys, stamp).store, key), c)
            <==> AllNamed(w, off, keys) && NameFree(w, off, apps, keys, EntryTrigger(site, e, stamp))
  {
    hide Restored, ViewOf, Start, Inv, DeleteCronTrigger, SetState, Entries, AllNamed, NameFree;
    var key := KeyOf(site, e);
    SchedulingKeepsMark(w, s, key, tk, c, user);
    var forced := DeleteCronTrigger(w, s, key, s.jobs[key], true);
    var on := SetState(w, forced, site, ACTION_SCHEDULE, key.name, user).store;
    UnforcedIsRestored(w, on, site, apps, keys, e, stamp, CronKey(key.name, user, site), c, false);
  }

  // ---- a job unscheduled by a user

  /** No trigger, disabled, not marked, and with an expression that a start respects. */
  ghost predicate Parked(w: World, v: View, c: string) {
    && v.triggers == map[] && v.data.Some?
    && v.data.value.cron == Some(c) && w.valid(c) && !w.blank(c)
    && v.data.value.enabled == Some(false)
    && !Flag(v.data.value.forcefullyDisabled) && !Flag(v.data.value.forceState)
  }

  ghost predicate Respects(site: string, es: seq<Entry>, key: JobKey) {
    forall e :: e in es && KeyOf(site, e) == key ==> Unforced(e) && !Flag(Supplied(e).forcefullyDisabled)
  }

  /** Steps in which no user acts on the job, and no application forces its state or marks it. */
  ghost predicate LeavesAlone(step: Step, key: JobKey) {
    match step
    case Acting(site, _, id, _) => JobKey(id, site) != key
    case Updating(site, id, _) => JobKey(id, site) != key
    case Starting(site, apps, _, _) => Respects(site, Entries(apps), key)
    case Completing(_) => true
    case Expiring(_) => true
  }

  lemma StartKeepsParked(w: World, s: Store, site: string, e: Entry, stamp: string, key: JobKey, c: string)
    requires Parked(w, ViewOf(s, key), c) && Respects(site, [e], key)
    ensures Parked(w, ViewOf(StartEntry(w, s, site, e, stamp), key), c)
  {
    hide ViewOf, StartEntry, Merge, KeyOf;
    if KeyOf(site, e) == key {
      assert e in [e];
      StartEntryView(w, s, site, e, stamp);
      MergeDisabled(w, ViewOf(s, key).data.value, site, e, c);
    } else {
      StartEntryFrame(w, s, site, e, stamp, key);
    }
  }

  lemma {:induction false} StartsKeepParked(w: World, s: Store, site: string, es: seq<Entry>, stamp: string,
                                              key: JobKey, c: string)
    requires Parked(w, ViewOf(s, key), c) && Respects(site, es, key)
    ensures Parked(w, ViewOf(StartEntries(w, s, site, es, stamp), key), c)
    decreases |es|
  {
    hide Parked, ViewOf, StartEntry, KeyOf;
    if es != [] {
      StartKeepsParked(w, s, site, es[0], stamp, key, c);
      StartsKeepParked(w, StartEntry(w, s, site, es[0], stamp), site, es[1..], stamp, key, c);
    }
  }

  lemma ValidateKeepsParked(w: World, s: Store, apps: seq<App>, key: JobKey, c: string)
    requires WellBehaved(w) && Parked(w, ViewOf(s, key), c)
    ensures Parked(w, ViewOf(ValidateJob(w, s, apps, key).store, key), c)
  {
    if Named(w, key, s.jobs[key]).Some? {
      var d := Named(w, key, s.jobs[key]).value;
      SaveFrame(s, key, d, key);
      NoTriggersMeansEmpty(Save(s, key, d), key);
      NoCronWithoutTriggers(Save(s, key, d), key);
    }
  }

  lemma {:induction false} ValidationsKeepParked(w: World, s: Store, apps: seq<App>, keys: seq<JobKey>, key: JobKey,
                                                   c: string)
    requires WellBehaved(w) && Parked(w, ViewOf(s, key), c)
    ensures Parked(w, ViewOf(ValidateJobs(w, s, apps, keys).store, key), c)
    decreases |keys|
  {
    hide Parked, ViewOf, ValidateJob;
    if keys != [] {
      if keys[0] == key {
        ValidateKeepsParked(w, s, apps, key, c);
      } else {
        ValidateFrame(w, s, apps, keys[0], key);
      }
      if ValidateJob(w, s, apps, keys[0]).ok {
        ValidationsKeepParked(w, ValidateJob(w, s, apps, keys[0]).store, apps, keys[1..], key, c);
      }
    }
  }

  lemma SetStateFrame(w: World, s: Store, site: string, action: string, id: string, stamp: string, other: JobKey)
    requires WellBehaved(w) && JobKey(id, site) != other
    ensures ViewOf(SetState(w, s, site, action, id, stamp).store, other) == ViewOf(s, other)
  {
    hide ViewOf, ScheduleJob, DeleteCronTrigger, DeleteJob;
    var key := JobKey(id, site);
    if key in s.jobs {
      ScheduleFrame(w, s, key, s.jobs[key], id, site, stamp, other);
      DeleteCronFrame(w, s, key, s.jobs[key], false, other);
      AddFrame(s, SimpleKey(id, stamp, site), Trigger(key, Simple, false), other);
      DeleteJobFrame(s, key, other);
    }
  }

  /** Any step but a site start leaves a job without triggers alone, unless a user acts on it. */
  lemma TakeFrame(w: World, s: Store, step: Step, key: JobKey)
    requires WellBehaved(w) && ViewOf(s, key).triggers == map[]
    requires match step
             case Acting(site, _, id, _) => JobKey(id, site) != key
             case Updating(site, id, _) => JobKey(id, site) != key
             case _ => !step.Starting?
    ensures ViewOf(Take(w, s, step), key) == ViewOf(s, key)
  {
    hide SetState, Reschedule;
    match step
    case Acting(site, action, id, stamp) => SetStateFrame(w, s, site, action, id, stamp, key);
    case Updating(site, id, cron) =>
      if JobKey(id, site) in s.jobs {
        RescheduleFrame(w, s, JobKey(id, site), s.jobs[JobKey(id, site)], cron, key);
      }
    case _ => TimeFrame(w, s, step.trigger, key);
  }

  lemma TimeFrame(w: World, s: Store, tk: TriggerKey, key: JobKey)
    requires WellBehaved(w) && ViewOf(s, key).triggers == map[]
    ensures ViewOf(Take(w, s, Completing(tk)), key) == ViewOf(s, key)
    ensures ViewOf(Take(w, s, Expiring(tk)), key) == ViewOf(s, key)
  {
    assert tk in s.triggers ==> tk in ViewOf(s, key).triggers || s.triggers[tk].job != key;
  }

  lemma TakeKeepsParked(w: World, s: Store, step: Step, key: JobKey, c: string)
    requires WellBehaved(w) && Parked(w, ViewOf(s, key), c) && LeavesAlone(step, key)
    ensures Parked(w, ViewOf(Take(w, s, step), key), c)
  {
    hide ViewOf, StartEntries, ValidateJobs, Respects, Entries, SetState, Update;
    if step.Starting? {
      hide Parked;
      var o := ValidateIf(w, s, step.apps, step.keys);
      if step.keys.Some? {
        ValidationsKeepParked(w, s, step.apps, step.keys.value, key, c);
      }
      StartsKeepParked(w, o.store, step.site, Entries(step.apps), step.stamp, key, c);
    } else {
      TakeFrame(w, s, step, key);
    }
  }

  lemma {:induction false} RunKeepsParked(w: World, s: Store, steps: seq<Step>, key: JobKey, c: string)
    requires WellBehaved(w) && Parked(w, ViewOf(s, key), c)
    requires forall i :: 0 <= i < |steps| ==> LeavesAlone(steps[i], key)
    ensures Parked(w, ViewOf(Run(w, s, steps), key), c)
    decreases |steps|
  {
    hide Parked, ViewOf, Take, LeavesAlone;
    if steps != [] {
      TakeKeepsParked(w, s, steps[0], key, c);
      RunKeepsParked(w, Take(w, s, steps[0]), steps[1..], key, c);
    }
  }

  /** A job that a user unscheduled stays unscheduled and keeps its expression, whatever happens to others and however
      often the site starts, until someone acts on it or its application forces its state. */
  lemma UnscheduledStays(w: World, s: Store, key: JobKey, tk: TriggerKey, c: string, steps: seq<Step>, stamp: string)
    requires WellBehaved(w) && Inv(w, s)
    requires TriggersOf(s, key) == {tk} && s.triggers[tk].kind == Cron(c)
    requires key in s.jobs && !Flag(s.jobs[key].forcefullyDisabled) && !Flag(s.jobs[key].forceState)
    requires forall i :: 0 <= i < |steps| ==> LeavesAlone(steps[i], key)
    ensures var off := SetState(w, s, key.group, ACTION_UNSCHEDULE, key.name, stamp);
            off.ok && Parked(w, ViewOf(Run(w, off.store, steps), key), c)
  {
    hide Run, ViewOf, DeleteCronTrigger, Inv, LeavesAlone;
    assert tk in TriggersOf(s, key);
    assert tk in CronTriggersOf(s, key);
    CronIsStored(w, s, key, tk);
    DeleteOnlyTrigger(w, s, key, tk, c, false);
    assert JobKey(key.name, key.group) == key;
    assert ACTION_UNSCHEDULE != ACTION_SCHEDULE by {
      assert ACTION_UNSCHEDULE[0] != ACTION_SCHEDULE[0];
    }
    RunKeepsParked(w, DeleteCronTrigger(w, s, key, s.jobs[key], false), steps, key, c);
  }

  // ---- a bean that is missing for a while

  /** Steps in which no user acts on the job, and no application has a bean for it. */
  ghost predicate WithoutBean(step: Step, key: JobKey) {
    match step
    case Acting(site, _, id, _) => JobKey(id, site) != key
    case Updating(site, id, _) => JobKey(id, site) != key
    case Starting(site, apps, _, _) => NoBean(site, apps, key)
    case Completing(_) => true
    case Expiring(_) => true
  }

  ghost predicate NoBean(site: string, apps: seq<App>, key: JobKey) {
    forall e :: e in Entries(apps) ==> KeyOf(site, e) != key
  }

  /** The job's only trigger is `tk`, which fires by `c`. */
  ghost predicate OnlyCron(v: View, d: JobData, tk: TriggerKey, c: string) {
    v.data == Some(d) && v.triggers.Keys == {tk} && v.triggers[tk].kind == Cron(c)
  }

  lemma ValidateMarks(w: World, s: Store, apps: seq<App>, key: JobKey, d: JobData, tk: TriggerKey, c: string)
    requires WellBehaved(w) && OnlyCron(ViewOf(s, key), d, tk, c) && d.cron.Some? && Missing(w, apps, key, d)
    ensures Idle(ViewOf(ValidateJob(w, s, apps, key).store, key), Disabled(d, c, true))
  {
    hide DeleteCronTrigger, BeanExists, Named;
    DataOfView(s, key);
    NamedKeepsCron(w, key, d);
    var saved := Save(s, key, Named(w, key, d).value);
    TriggersOfView(s, key);
    assert TriggersOf(saved, key) == TriggersOf(s, key);
    DeleteOnlyTrigger(w, saved, key, tk, c, true);
  }

  lemma {:induction false} ValidationMarks(w: World, s: Store, apps: seq<App>, keys: seq<JobKey>, key: JobKey,
                                           d: JobData, tk: TriggerKey, c: string)
    requires WellBehaved(w) && OnlyCron(ViewOf(s, key), d, tk, c) && d.cron.Some? && Missing(w, apps, key, d)
    requires key in keys && ValidateJobs(w, s, apps, keys).ok
    ensures Idle(ViewOf(ValidateJobs(w, s, apps, keys).store, key), Disabled(d, c, true))
    decreases |keys|
  {
    hide OnlyCron, Idle, Missing, ViewOf, ValidateJob;
    var o := ValidateJob(w, s, apps, keys[0]);
    if keys[0] == key {
      ValidateMarks(w, s, apps, key, d, tk, c);
      ValidationsKeepIdle(w, o.store, apps, keys[1..], key, Disabled(d, c, true));
    } else {
      ValidateFrame(w, s, apps, keys[0], key);
      ValidationMarks(w, o.store, apps, keys[1..], key, d, tk, c);
    }
  }

  lemma TakeKeepsIdle(w: World, s: Store, step: Step, key: JobKey, d: JobData)
    requires WellBehaved(w) && Idle(ViewOf(s, key), d) && WithoutBean(step, key)
    ensures Idle(ViewOf(Take(w, s, step), key), d)
  {
    hide ViewOf, StartEntries, ValidateJobs, Entries, SetState, Update;
    if step.Starting? {
      hide Idle;
      var o := ValidateIf(w, s, step.apps, step.keys);
      if step.keys.Some? {
        ValidationsKeepIdle(w, s, step.apps, step.keys.value, key, d);
      }
      StartEntriesFrame(w, o.store, step.site, Entries(step.apps), step.stamp, key);
    } else {
      TakeFrame(w, s, step, key);
    }
  }

  lemma {:induction false} RunKeepsIdle(w: World, s: Store, steps: seq<Step>, key: JobKey, d: JobData)
    requires WellBehaved(w) && Idle(ViewOf(s, key), d)
    requires forall i :: 0 <= i < |steps| ==> WithoutBean(steps[i], key)
    ensures Idle(ViewOf(Run(w, s, steps), key), d)
    decreases |steps|
  {
    hide Idle, ViewOf, Take, WithoutBean;
    if steps != [] {
      TakeKeepsIdle(w, s, steps[0], key, d);
      RunKeepsIdle(w, Take(w, s, steps[0]), steps[1..], key, d);
    }
  }

  /** A start that validates while the job's bean is missing takes its trigger and marks it. */
  lemma StartMarks(w: World, s: Store, site: string, apps: seq<App>, keys: seq<JobKey>, stamp: string,
                   key: JobKey, tk: TriggerKey, c: string)
    requires WellBehaved(w) && Inv(w, s) && TriggersOf(s, key) == {tk} && s.triggers[tk].kind == Cron(c)
    requires key in keys && key in s.jobs && Missing(w, apps, key, s.jobs[key]) && NoBean(site, apps, key)
    requires EachOnce(keys) && AllNamed(w, s, Some(keys))
    ensures Idle(ViewOf(Start(w, s, site, apps, Some(keys), stamp).store, key), Disabled(s.jobs[key], c, true))
  {
    hide Inv, StartEntries, ValidateJobs, Missing, Idle, Entries, AllNamed;
    OnlyTriggerIsStored(w, s, key, tk, c);
    ValidationThrows(w, s, apps, keys);
    TriggersOfView(s, key);
    assert tk in TriggersOf(s, key);
    ValidationMarks(w, s, apps, keys, key, s.jobs[key], tk, c);
    StartEntriesFrame(w, ValidateJobs(w, s, apps, keys).store, site, Entries(apps), stamp, key);
  }

  /** The bean of a scheduled job is missing at a start that validates, and at any later ones; as long as no user acts
      on the job, the first start that has the bean again, `Reenables` permitting, restores the trigger. */
  lemma MissingBeanComesBack(w: World, s: Store, site: string, apps: seq<App>, keys: seq<JobKey>, stamp: string,
                             tk: TriggerKey, c: string, steps: seq<Step>, apps': seq<App>,
                             keys': Option<seq<JobKey>>, e: Entry, stamp': string)
    requires WellBehaved(w) && Inv(w, s) && TriggersOf(s, KeyOf(site, e)) == {tk} && s.triggers[tk].kind == Cron(c)
    requires KeyOf(site, e) in keys && EachOnce(keys) && AllNamed(w, s, Some(keys))
    requires KeyOf(site, e) in s.jobs && Missing(w, apps, KeyOf(site, e), s.jobs[KeyOf(site, e)])
    requires NoBean(site, apps, KeyOf(site, e))
    requires forall i :: 0 <= i < |steps| ==> WithoutBean(steps[i], KeyOf(site, e))
    requires Inv(w, Run(w, Start(w, s, site, apps, Some(keys), stamp).store, steps))
    requires DistinctKeys(site, Entries(apps')) && e in Entries(apps') && (keys'.Some? ==> EachOnce(keys'.value))
    ensures var key := KeyOf(site, e);
            var gone := Run(w, Start(w, s, site, apps, Some(keys), stamp).store, steps);
            Restored(ViewOf(Start(w, gone, site, apps', keys', stamp').store, key), c)
            <==> && Reenables(Disabled(s.jobs[key], c, true), e, c)
                 && AllNamed(w, gone, keys')
                 && NameFree(w, gone, apps', keys', EntryTrigger(site, e, stamp'))
  {
    hide Inv, Start, Run, ViewOf, Idle, Missing, NoBean, Entries, AllNamed, NameFree;
    hide WithoutBean, Restored, Reenables, KeyOf;
    var key, marked := KeyOf(site, e), Start(w, s, site, apps, Some(keys), stamp).store;
    OnlyTriggerIsStored(w, s, key, tk, c);
    StartMarks(w, s, site, apps, keys, stamp, key, tk, c);
    RunKeepsIdle(w, marked, steps, key, Disabled(s.jobs[key], c, true));
    StartRestores(w, Run(w, marked, steps), site, apps', keys', e, stamp', Disabled(s.jobs[key], c, true), c);
  }

  /** The same over a run in which no application forces the state of its jobs. */
  lemma MissingBeanComesBackUnforced(w: World, s: Store, site: string, apps: seq<App>, keys: seq<JobKey>,
                                     stamp: string, tk: TriggerKey, c: string, steps: seq<Step>, apps': seq<App>,
                                     keys': Option<seq<JobKey>>, e: Entry, stamp': string)
    requires WellBehaved(w) && Inv(w, s) && TriggersOf(s, KeyOf(site, e)) == {tk} && s.triggers[tk].kind == Cron(c)
    requires KeyOf(site, e) in keys && EachOnce(keys) && AllNamed(w, s, Some(keys))
    requires KeyOf(site, e) in s.jobs && Missing(w, apps, KeyOf(site, e), s.jobs[KeyOf(site, e)])
    requires NoBean(site, apps, KeyOf(site, e))
    requires NoneForced(s) && StepUnforced(Starting(site, apps, Some(keys), stamp))
    requires forall i :: 0 <= i < |steps| ==> WithoutBean(steps[i], KeyOf(site, e)) && StepUnforced(steps[i])
    requires DistinctKeys(site, Entries(apps')) && e in Entries(apps') && (keys'.Some? ==> EachOnce(keys'.value))
    ensures var key := KeyOf(site, e);
            var gone := Run(w, Start(w, s, site, apps, Some(keys), stamp).store, steps);
            Restored(ViewOf(Start(w, gone, site, apps', keys', stamp').store, key), c)
            <==> && Reenables(Disabled(s.jobs[key], c, true), e, c)
                 && AllNamed(w, gone, keys')
                 && NameFree(w, gone, apps', keys', EntryTrigger(site, e, stamp'))
  {
    hide Inv, Start, Run, ViewOf, Missing, NoBean, Entries, AllNamed, NameFree, NoneForced, StepUnforced;
    hide WithoutBean, Restored, Reenables, KeyOf;
    var first := Starting(site, apps, Some(keys), stamp);
    StartKeepsInv(w, s, first);
    RunKeepsInv(w, Take(w, s, first), steps);
    MissingBeanComesBack(w, s, site, apps, keys, stamp, tk, c, steps, apps', keys', e, stamp');
  }
}
