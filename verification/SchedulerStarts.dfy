/** Starting a site a second time. */
module SchedulerStarts {
  import opened Options
  import opened Scheduler
  import opened SchedulerRuns
  import opened SchedulerViews
  import opened SchedulerValidation
  import opened SchedulerRestarts

  // ---- a second start: one bean

  /** The same to every reader: a missing flag is as good as a false one. */
  ghost predicate Alike(d: JobData, e: JobData) {
    d.(enabled := None) == e.(enabled := None) && Flag(d.enabled) == Flag(e.enabled)
  }

  /** Of the reserved keys the application sets its cron expression, enabled and forced state at most. */
  ghost predicate Modest(e: Entry) {
    var a := Supplied(e);
    a.forcefullyDisabled.None? && a.scheduledJob.None? && a.origin.None? && a.siteName.None? && a.beanName.None?
  }

  function MergeView(w: World, v: View, site: string, e: Entry): JobData {
    Merge(w, if v.data.Some? then v.data.value else EMPTY, site, e.app, e.job, e.bean)
  }

  ghost predicate AlikeView(v: View, u: View) {
    && v.triggers == u.triggers && v.data.Some? == u.data.Some?
    && (v.data.Some? ==> Alike(v.data.value, u.data.value))
  }

  lemma PutAllTwice(d: map<string, string>, a: map<string, string>)
    ensures (d + a) + a == d + a
  {
  }

  lemma MergeTwice(w: World, d: JobData, site: string, e: Entry)
    requires Modest(e)
    ensures var m := Merge(w, d, site, e.app, e.job, e.bean);
            Alike(Merge(w, m, site, e.app, e.job, e.bean), m)
  {
    if e.job.data.Some? {
      PutAllTwice(d.other, e.job.data.value.other);
    }
  }

  /** The start stores the job as enabled, but adds no trigger, since another one has the name. */
  ghost predicate Delayed(w: World, v: View, site: string, e: Entry, taken: bool) {
    var m := MergeView(w, v, site, e);
    taken && v.triggers == map[] && Flag(m.enabled) && IsValid(w, m.cron)
  }

  /** What a start makes of a job, in terms of the merged data. */
  lemma StartedView(w: World, v: View, site: string, e: Entry, stamp: string, taken: bool)
    ensures var m, once := MergeView(w, v, site, e), StartView(w, v, site, e, stamp, taken);
            && once.data == Some(m)
            && (once.triggers == map[] <==>
                  v.triggers == map[] && (taken || !Flag(m.enabled) || !IsValid(w, m.cron)))
            && (v.triggers != map[] ==> once.triggers == v.triggers)
            && (v.triggers == map[] && once.triggers != map[] ==> once.triggers.Keys == {EntryTrigger(site, e, stamp)})
  {
    hide Merge;
    var m, once := MergeView(w, v, site, e), StartView(w, v, site, e, stamp, taken);
    if Flag(m.enabled) {
      assert m.(enabled := Some(true)) == m;
    }
    if v.triggers == map[] && Flag(m.enabled) && IsValid(w, m.cron) && !taken {
      assert EntryTrigger(site, e, stamp) in once.triggers;
    }
  }

  /** A second start of a bean, with another stamp, changes something exactly if the first was delayed and the new name
      is free; then it adds the trigger. */
  lemma SecondStart(w: World, v: View, site: string, e: Entry, stamp: string, taken: bool, again: string, still: bool)
    requires Modest(e)
    ensures var once := StartView(w, v, site, e, stamp, taken);
            var twice := StartView(w, once, site, e, again, still);
            && (AlikeView(twice, once) <==> !(Delayed(w, v, site, e, taken) && !still))
            && (Delayed(w, v, site, e, taken) ==>
                  && once.triggers == map[] && Flag(once.data.value.enabled)
                  && (!still ==> twice.triggers.Keys == {EntryTrigger(site, e, again)}))
  {
    hide Merge, StartView, Modest;
    var d := if v.data.Some? then v.data.value else EMPTY;
    var once := StartView(w, v, site, e, stamp, taken);
    MergeTwice(w, d, site, e);
    StartedView(w, v, site, e, stamp, taken);
    StartedView(w, once, site, e, again, still);
  }

  // ---- a second start: the whole site

  ghost predicate AlikeStore(s: Store, t: Store) {
    forall key :: AlikeView(ViewOf(s, key), ViewOf(t, key))
  }

  lemma AlikeStoreTriggers(s: Store, t: Store)
    requires AlikeStore(s, t)
    ensures s.triggers == t.triggers && s.jobs.Keys == t.jobs.Keys
    ensures forall key :: key in s.jobs ==> Alike(s.jobs[key], t.jobs[key])
  {
    forall tk | tk in s.triggers ensures tk in t.triggers && t.triggers[tk] == s.triggers[tk] {
      assert AlikeView(ViewOf(s, s.triggers[tk].job), ViewOf(t, s.triggers[tk].job));
      assert tk in ViewOf(s, s.triggers[tk].job).triggers;
    }
    forall tk | tk in t.triggers ensures tk in s.triggers {
      assert AlikeView(ViewOf(s, t.triggers[tk].job), ViewOf(t, t.triggers[tk].job));
      assert tk in ViewOf(t, t.triggers[tk].job).triggers;
    }
    forall key ensures (key in s.jobs <==> key in t.jobs) && (key in s.jobs ==> Alike(s.jobs[key], t.jobs[key])) {
      assert AlikeView(ViewOf(s, key), ViewOf(t, key));
    }
  }

  /** The bean's job is stored as enabled, but without a trigger, by a start from this store. */
  ghost predicate DelayedIn(w: World, s: Store, site: string, e: Entry, stamp: string) {
    Delayed(w, ViewOf(s, KeyOf(site, e)), site, e, EntryTrigger(site, e, stamp) in s.triggers)
  }

  lemma BeanStartsTwice(w: World, s: Store, site: string, es: seq<Entry>, stamp: string, again: string, e: Entry)
    requires DistinctKeys(site, es) && e in es && Modest(e)
    ensures var key, once := KeyOf(site, e), StartEntries(w, s, site, es, stamp);
            var twice := StartEntries(w, once, site, es, again);
            && (AlikeView(ViewOf(twice, key), ViewOf(once, key)) <==>
                  (DelayedIn(w, s, site, e, stamp) ==> EntryTrigger(site, e, again) in once.triggers))
            && (DelayedIn(w, s, site, e, stamp) ==>
                  && ViewOf(once, key).triggers == map[]
                  && ViewOf(once, key).data.Some? && Flag(ViewOf(once, key).data.value.enabled)
                  && (EntryTrigger(site, e, again) !in once.triggers ==>
                        ViewOf(twice, key).triggers.Keys == {EntryTrigger(site, e, again)}))
  {
    hide ViewOf, StartEntries, StartView, Delayed, AlikeView, Modest, KeyOf, EntryTrigger;
    var i :| 0 <= i < |es| && es[i] == e;
    var once := StartEntries(w, s, site, es, stamp);
    var taken, still := EntryTrigger(site, e, stamp) in s.triggers, EntryTrigger(site, e, again) in once.triggers;
    StartEntriesView(w, s, site, es, stamp, i);
    StartEntriesView(w, once, site, es, again, i);
    StartedView(w, ViewOf(s, KeyOf(site, e)), site, e, stamp, taken);
    SecondStart(w, ViewOf(s, KeyOf(site, e)), site, e, stamp, taken, again, still);
  }

  /** Starting the beans of a site a second time, with another stamp, changes no job to any reader exactly if none was
      delayed whose new trigger name is free. */
  lemma BeansStartTwice(w: World, s: Store, site: string, es: seq<Entry>, stamp: string, again: string)
    requires DistinctKeys(site, es) && forall e :: e in es ==> Modest(e)
    ensures var once := StartEntries(w, s, site, es, stamp);
            AlikeStore(StartEntries(w, once, site, es, again), once)
            <==> forall e :: e in es && DelayedIn(w, s, site, e, stamp) ==>
                   EntryTrigger(site, e, again) in once.triggers
  {
    hide ViewOf, StartEntries, Modest, DelayedIn, AlikeView, KeyOf, EntryTrigger;
    var once := StartEntries(w, s, site, es, stamp);
    var twice := StartEntries(w, once, site, es, again);
    forall e | e in es
      ensures AlikeView(ViewOf(twice, KeyOf(site, e)), ViewOf(once, KeyOf(site, e)))
         <==> (DelayedIn(w, s, site, e, stamp) ==> EntryTrigger(site, e, again) in once.triggers)
    {
      BeanStartsTwice(w, s, site, es, stamp, again, e);
    }
    forall key | forall e :: e in es ==> KeyOf(site, e) != key
      ensures AlikeView(ViewOf(twice, key), ViewOf(once, key))
    {
      StartEntriesFrame(w, once, site, es, again, key);
      AlikeItself(ViewOf(once, key));
    }
  }

  lemma AlikeItself(v: View)
    ensures AlikeView(v, v)
  {
  }

  // ---- names, seen before validation

  /** The job has a trigger that validation does not remove. */
  ghost predicate KeepsTrigger(w: World, s: Store, apps: seq<App>, keys: Option<seq<JobKey>>, key: JobKey) {
    exists tk :: tk in TriggersOf(s, key) && !(keys.Some? && Doomed(w, s, apps, keys.value, tk))
  }

  /** Each job keeps a trigger, or the name that a new one would get is free once validation is done. */
  ghost predicate NamesFree(w: World, s: Store, site: string, apps: seq<App>, keys: Option<seq<JobKey>>,
                            stamp: string)
  {
    forall e :: e in Entries(apps) ==>
      NameFree(w, s, apps, keys, EntryTrigger(site, e, stamp)) || KeepsTrigger(w, s, apps, keys, KeyOf(site, e))
  }

  lemma KeptTrigger(w: World, s: Store, apps: seq<App>, keys: Option<seq<JobKey>>, key: JobKey)
    requires WellBehaved(w) && Inv(w, s) && (keys.Some? ==> EachOnce(keys.value)) && ValidateIf(w, s, apps, keys).ok
    requires KeepsTrigger(w, s, apps, keys, key)
    ensures ViewOf(ValidateIf(w, s, apps, keys).store, key).triggers != map[]
  {
    hide Inv, Doomed, ValidateJobs;
    var tk :| tk in TriggersOf(s, key) && !(keys.Some? && Doomed(w, s, apps, keys.value, tk));
    if keys.Some? {
      ValidationRemovesExactly(w, s, apps, keys.value);
    }
    assert tk in ViewOf(ValidateIf(w, s, apps, keys).store, key).triggers;
  }

  lemma NoneDelayed(w: World, s: Store, site: string, apps: seq<App>, keys: Option<seq<JobKey>>, stamp: string,
                    e: Entry)
    requires WellBehaved(w) && Inv(w, s) && (keys.Some? ==> EachOnce(keys.value)) && ValidateIf(w, s, apps, keys).ok
    requires NamesFree(w, s, site, apps, keys, stamp) && e in Entries(apps)
    ensures !DelayedIn(w, ValidateIf(w, s, apps, keys).store, site, e, stamp)
  {
    hide Inv, ValidateIf, ViewOf, NameFree, KeepsTrigger, Entries;
    if NameFree(w, s, apps, keys, EntryTrigger(site, e, stamp)) {
      ValidationFrees(w, s, apps, keys, EntryTrigger(site, e, stamp));
    } else {
      KeptTrigger(w, s, apps, keys, KeyOf(site, e));
    }
  }

  // ---- a second validation

  /** Validation has nothing to do on the job. */
  ghost predicate Checked(w: World, v: View, apps: seq<App>, key: JobKey) {
    && v.data.Some? && Named(w, key, v.data.value) == Some(v.data.value)
    && (Missing(w, apps, key, v.data.value) && v.data.value.cron.Some? ==>
          forall tk :: tk in v.triggers ==> !v.triggers[tk].kind.Cron?)
  }

  lemma CheckedMeans(w: World, s: Store, apps: seq<App>, key: JobKey)
    requires WellBehaved(w) && Checked(w, ViewOf(s, key), apps, key)
    ensures ValidateJob(w, s, apps, key) == Outcome(s, true)
  {
    hide Named, BeanExists;
    DataOfView(s, key);
    assert Save(s, key, s.jobs[key]) == s;
    FirstIsMember(w, s, key);
    forall tk | tk in CronTriggersOf(s, key)
      ensures tk in ViewOf(s, key).triggers && ViewOf(s, key).triggers[tk].kind.Cron?
    {
    }
  }

  lemma ValidateChecks(w: World, s: Store, apps: seq<App>, key: JobKey)
    requires WellBehaved(w) && Inv(w, s) && ValidateJob(w, s, apps, key).ok
    ensures Checked(w, ViewOf(ValidateJob(w, s, apps, key).store, key), apps, key)
  {
    hide Inv, Missing, Named, BeanExists;
    var s' := ValidateJob(w, s, apps, key).store;
    DataOfView(s', key);
    var d, d' := Named(w, key, s.jobs[key]).value, s'.jobs[key];
    NamedKeepsCron(w, key, s.jobs[key]);
    NamedTwice(w, key, s.jobs[key], d');
    NamedTwice(w, key, s.jobs[key], d);
    ValidateRemoves(w, s, apps, key);
    assert Missing(w, apps, key, d') == Missing(w, apps, key, s.jobs[key]) by {
      SameMissing(w, apps, key, s.jobs[key], d');
    }
    forall tk | tk in ViewOf(s', key).triggers && Missing(w, apps, key, d')
      ensures !ViewOf(s', key).triggers[tk].kind.Cron?
    {
      assert tk in s'.triggers && !Doomed(w, s, apps, [key], tk);
    }
  }

  lemma SameMissing(w: World, apps: seq<App>, key: JobKey, d: JobData, d': JobData)
    requires Named(w, key, d).Some? && d'.origin == d.origin && d'.beanName == Named(w, key, d).value.beanName
    ensures Missing(w, apps, key, d) == Missing(w, apps, key, d')
  {
    hide BeanExists;
    NamedTwice(w, key, d, d');
  }

  lemma {:induction false} ValidationChecks(w: World, s: Store, apps: seq<App>, keys: seq<JobKey>, key: JobKey)
    requires WellBehaved(w) && Inv(w, s) && ValidateJobs(w, s, apps, keys).ok && key in keys
    requires EachOnce(keys)
    ensures Checked(w, ViewOf(ValidateJobs(w, s, apps, keys).store, key), apps, key)
    decreases |keys|
  {
    hide Inv, Checked, ViewOf, ValidateJob;
    var o := ValidateJob(w, s, apps, keys[0]);
    ValidateJobKeepsInv(w, s, apps, keys[0]);
    if keys[0] == key {
      ValidateChecks(w, s, apps, key);
      ValidationFrame(w, o.store, apps, keys[1..], key);
    } else {
      ValidationChecks(w, o.store, apps, keys[1..], key);
    }
  }

  lemma {:induction false} CheckedStays(w: World, s: Store, apps: seq<App>, keys: seq<JobKey>)
    requires WellBehaved(w) && forall key :: key in keys ==> Checked(w, ViewOf(s, key), apps, key)
    ensures ValidateJobs(w, s, apps, keys) == Outcome(s, true)
    decreases |keys|
  {
    hide Checked, ViewOf, ValidateJob;
    if keys != [] {
      CheckedMeans(w, s, apps, keys[0]);
      CheckedStays(w, s, apps, keys[1..]);
    }
  }

  /** A started job carries the names of its application and bean, which exist. */
  lemma StartChecks(w: World, v: View, site: string, apps: seq<App>, e: Entry, stamp: string, taken: bool)
    requires Modest(e) && IsEntry(apps, e)
    ensures Checked(w, StartView(w, v, site, e, stamp, taken), apps, KeyOf(site, e))
  {
    hide FindApp, FindBean;
    var d := StartView(w, v, site, e, stamp, taken).data.value;
    assert d.origin == Some(e.app) && d.beanName == Some(e.bean);
    NamedAlready(w, site, e, d);
  }

  lemma NamedAlready(w: World, site: string, e: Entry, d: JobData)
    requires d.origin == Some(e.app) && d.beanName == Some(e.bean)
    ensures Named(w, KeyOf(site, e), d) == Some(d)
  {
    var name := KeyOf(site, e).name;
    assert name[|e.app| + 1..] == e.bean;
  }

  // ---- the whole start, twice

  lemma {:induction false} ValidationKeepsJobs(w: World, s: Store, apps: seq<App>, keys: seq<JobKey>)
    requires WellBehaved(w)
    ensures ValidateJobs(w, s, apps, keys).store.jobs.Keys == s.jobs.Keys
    decreases |keys|
  {
    if keys != [] && ValidateJob(w, s, apps, keys[0]).ok {
      ValidationKeepsJobs(w, ValidateJob(w, s, apps, keys[0]).store, apps, keys[1..]);
    }
  }

  /** After a start that validated, every job of the site is one that validation leaves alone. */
  lemma StartLeavesChecked(w: World, s: Store, site: string, apps: seq<App>, keys: seq<JobKey>, stamp: string,
                           key: JobKey)
    requires WellBehaved(w) && Inv(w, s) && WellNamed(apps) && Lists(s, site, keys) && ValidateJobs(w, s, apps, keys).ok
    requires forall e :: e in Entries(apps) ==> Modest(e)
    requires key in Start(w, s, site, apps, Some(keys), stamp).store.jobs && key.group == site
    ensures Checked(w, ViewOf(Start(w, s, site, apps, Some(keys), stamp).store, key), apps, key)
  {
    hide Checked, ViewOf, ValidateJobs, Inv, Entries, WellNamed, Modest, StartEntries, StartView, KeyOf;
    var es, valid := Entries(apps), ValidateJobs(w, s, apps, keys).store;
    EntriesHaveDistinctKeys(site, apps);
    EntriesAre(apps);
    if i :| 0 <= i < |es| && KeyOf(site, es[i]) == key {
      assert es[i] in es;
      StartEntriesView(w, valid, site, es, stamp, i);
      StartChecks(w, ViewOf(valid, key), site, apps, es[i], stamp, EntryTrigger(site, es[i], stamp) in valid.triggers);
    } else {
      StartEntriesFrame(w, valid, site, es, stamp, key);
      DataOfView(valid, key);
      DataOfView(StartEntries(w, valid, site, es, stamp), key);
      ValidationKeepsJobs(w, s, apps, keys);
      ValidationChecks(w, s, apps, keys, key);
    }
  }

  /** Starting a well named site a second time, validating both times or never, changes no trigger and nothing that
      a reader sees of the jobs. */
  lemma StartTwice(w: World, s: Store, site: string, apps: seq<App>, keys: Option<seq<JobKey>>, stamp: string,
                   keys': Option<seq<JobKey>>, stamp': string)
    requires WellBehaved(w) && Inv(w, s) && WellNamed(apps) && forall e :: e in Entries(apps) ==> Modest(e)
    requires Start(w, s, site, apps, keys, stamp).ok
    requires NamesFree(w, s, site, apps, keys, stamp)
    requires keys.Some? == keys'.Some?
    requires keys.Some? ==>
               Lists(s, site, keys.value) && Lists(Start(w, s, site, apps, keys, stamp).store, site, keys'.value)
    ensures var once := Start(w, s, site, apps, keys, stamp).store;
            var twice := Start(w, once, site, apps, keys', stamp');
            && twice.ok && twice.store.triggers == once.triggers && twice.store.jobs.Keys == once.jobs.Keys
            && forall key :: key in once.jobs ==> Alike(twice.store.jobs[key], once.jobs[key])
  {
    hide ViewOf, ValidateJobs, Inv, Entries, WellNamed, Modest, StartEntries, NamesFree, Checked, Alike, WellBehaved;
    hide DelayedIn;
    var es, once := Entries(apps), Start(w, s, site, apps, keys, stamp).store;
    var valid := ValidateIf(w, s, apps, keys).store;
    EntriesHaveDistinctKeys(site, apps);
    if keys.Some? {
      forall key | key in keys'.value ensures Checked(w, ViewOf(once, key), apps, key) {
        StartLeavesChecked(w, s, site, apps, keys.value, stamp, key);
      }
      CheckedStays(w, once, apps, keys'.value);
    }
    forall e | e in es ensures !DelayedIn(w, valid, site, e, stamp) {
      NoneDelayed(w, s, site, apps, keys, stamp, e);
    }
    BeansStartTwice(w, valid, site, es, stamp, stamp');
    AlikeStoreTriggers(StartEntries(w, once, site, es, stamp'), once);
  }
}
