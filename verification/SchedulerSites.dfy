/** What the start of a site comes across, and what it makes of a job: validation and the first start spelled out. */
module SchedulerSites {
  import opened Options
  import opened Scheduler
  import opened SchedulerActions
  import opened SchedulerMerge
  import opened SchedulerRuns
  import opened SchedulerViews
  import opened SchedulerValidation
  import opened SchedulerRestarts

  // ---- which beans are started

  ghost predicate IsBean(beans: seq<Bean>, j: int, name: string, job: Scheduled) {
    0 <= j < |beans| && beans[j] == Bean(name, Some(job))
  }

  lemma {:induction false} BeanEntriesAreBeans(app: string, beans: seq<Bean>, e: Entry)
    ensures e in BeanEntries(app, beans) <==> e.app == app && exists j :: IsBean(beans, j, e.bean, e.job)
    decreases |beans|
  {
    if beans != [] {
      BeanEntriesAreBeans(app, beans[1..], e);
      var own := if beans[0].job.Some? then [Entry(app, beans[0].name, beans[0].job.value)] else [];
      assert e in BeanEntries(app, beans) <==> e in own || e in BeanEntries(app, beans[1..]);
      assert e in own <==> e.app == app && IsBean(beans, 0, e.bean, e.job);
      assert forall j :: j > 0 ==> (IsBean(beans, j, e.bean, e.job) <==> IsBean(beans[1..], j - 1, e.bean, e.job));
      if j :| IsBean(beans[1..], j, e.bean, e.job) {
        assert IsBean(beans, j + 1, e.bean, e.job);
      }
    }
  }

  ghost predicate IsBeanOf(apps: seq<App>, i: int, e: Entry) {
    0 <= i < |apps| && apps[i].name == e.app && exists j :: IsBean(apps[i].beans, j, e.bean, e.job)
  }

  /** A start comes across exactly the beans that the site's applications deliver. */
  lemma {:induction false} EntriesAreBeans(apps: seq<App>, e: Entry)
    ensures e in Entries(apps) <==> exists i :: IsBeanOf(apps, i, e)
    decreases |apps|
  {
    hide IsBean;
    if apps != [] {
      EntriesAreBeans(apps[1..], e);
      BeanEntriesAreBeans(apps[0].name, apps[0].beans, e);
      if i :| IsBeanOf(apps[1..], i, e) {
        assert IsBeanOf(apps, i + 1, e);
      }
      if i :| IsBeanOf(apps, i, e) {
        if i > 0 {
          assert IsBeanOf(apps[1..], i - 1, e);
        } else {
          assert e in BeanEntries(apps[0].name, apps[0].beans);
        }
      }
      if e in BeanEntries(apps[0].name, apps[0].beans) {
        assert IsBeanOf(apps, 0, e);
      }
    }
  }

  lemma {:induction false} FindBeanIsFirst(beans: seq<Bean>, name: string, j: int)
    requires 0 <= j < |beans| && beans[j].name == name && forall k :: 0 <= k < j ==> beans[k].name != name
    ensures FindBean(beans, name) == beans[j].job
    decreases |beans|
  {
    if j > 0 {
      FindBeanIsFirst(beans[1..], name, j - 1);
    }
  }

  lemma {:induction false} FindAppIsFirst(apps: seq<App>, name: string, i: int)
    requires 0 <= i < |apps| && apps[i].name == name && forall k :: 0 <= k < i ==> apps[k].name != name
    ensures FindApp(apps, Some(name)) == Some(apps[i])
    decreases |apps|
  {
    if i > 0 {
      FindAppIsFirst(apps[1..], name, i - 1);
    }
  }

  /** In a site with distinct names a bean exists exactly if its application delivers it. */
  lemma BeanExistsLaw(apps: seq<App>, app: Option<string>, bean: string)
    requires WellNamed(apps)
    ensures BeanExists(apps, app, bean)
       <==> exists e :: e in Entries(apps) && app == Some(e.app) && bean == e.bean
  {
    EntriesAre(apps);
    if e :| e in Entries(apps) && app == Some(e.app) && bean == e.bean {
      assert IsEntry(apps, e);
    }
    if BeanExists(apps, app, bean) {
      FindAppHas(apps, app);
      var i :| 0 <= i < |apps| && Some(apps[i].name) == app;
      FindAppIsFirst(apps, apps[i].name, i);
      FindBeanHas(apps[i].beans, bean);
      var j :| 0 <= j < |apps[i].beans| && apps[i].beans[j].name == bean;
      FindBeanIsFirst(apps[i].beans, bean, j);
      var e := Entry(apps[i].name, bean, apps[i].beans[j].job.value);
      assert IsBean(apps[i].beans, j, e.bean, e.job);
      assert IsBeanOf(apps, i, e);
      EntriesAreBeans(apps, e);
    }
  }

  /** The bean name of a job that does not store one is what follows its application's name and a separator in its own
      name; there is none if no application is stored, or its name is as long as the job's. */
  lemma NameFromKey(w: World, key: JobKey, d: JobData)
    requires Blank(w, d.beanName)
    ensures Named(w, key, d).None? <==> d.origin.None? || |key.name| <= |d.origin.value|
    ensures forall app, bean :: key == GetJobKey(key.group, app, bean) && d.origin == Some(app) ==>
              Named(w, key, d) == Some(d.(beanName := Some(bean)))
  {
    forall app, bean | key == GetJobKey(key.group, app, bean) && d.origin == Some(app)
      ensures key.name[|app| + 1..] == bean && |app| + 1 <= |key.name|
    {
      assert key.name == app + "_" + bean;
    }
  }

  // ---- what validation makes of a job

  predicate IsCronIn(v: View, tk: TriggerKey) {
    tk in v.triggers && v.triggers[tk].kind.Cron?
  }

  /** `v` is what validation makes of the job `u`: it is named, and if its bean is missing and it had a cron trigger, it
      is without that, disabled and marked. */
  ghost predicate IsValidated(w: World, u: View, apps: seq<App>, key: JobKey, v: View)
    requires HasName(w, u, key)
  {
    var d := Named(w, key, u.data.value).value;
    if Missing(w, apps, key, u.data.value) && (exists tk :: IsCronIn(u, tk)) then
      exists tk ::
        && IsCronIn(u, tk)
        && v == View(Some(d.(enabled := Some(false), forcefullyDisabled := Some(true))), u.triggers - {tk})
    else v == View(Some(d), u.triggers)
  }

  lemma ValidateLaw(w: World, s: Store, apps: seq<App>, key: JobKey)
    requires WellBehaved(w) && Inv(w, s) && ValidateJob(w, s, apps, key).ok
    ensures HasName(w, ViewOf(s, key), key)
    ensures IsValidated(w, ViewOf(s, key), apps, key, ViewOf(ValidateJob(w, s, apps, key).store, key))
  {
    hide Named, BeanExists, DeleteCronTrigger, Inv;
    var d := Named(w, key, s.jobs[key]).value;
    var saved := Save(s, key, d);
    SaveFrame(s, key, d, key);
    DeleteCronLaw(w, saved, key, d, true);
    forall tk
      ensures IsCronOf(saved, key, tk) <==> IsCronIn(ViewOf(s, key), tk)
      ensures IsCronOf(saved, key, tk) ==> d.cron == Some(s.triggers[tk].kind.expression)
    {
      if IsCronOf(saved, key, tk) {
        assert tk in CronTriggersOf(s, key);
        CronIsStored(w, s, key, tk);
        NamedKeepsCron(w, key, s.jobs[key]);
      }
    }
    if tk :| IsCronIn(ViewOf(s, key), tk) {
      assert IsCronOf(saved, key, tk);
    }
  }

  /** What the whole validation makes of each job that it lists. */
  lemma {:induction false} ValidationLaw(w: World, s: Store, apps: seq<App>, keys: seq<JobKey>, key: JobKey)
    requires WellBehaved(w) && Inv(w, s) && EachOnce(keys) && key in keys && ValidateJobs(w, s, apps, keys).ok
    ensures HasName(w, ViewOf(s, key), key)
    ensures IsValidated(w, ViewOf(s, key), apps, key, ViewOf(ValidateJobs(w, s, apps, keys).store, key))
    decreases |keys|
  {
    hide Inv, HasName, IsValidated, ViewOf, ValidateJob;
    var o := ValidateJob(w, s, apps, keys[0]);
    ValidateJobKeepsInv(w, s, apps, keys[0]);
    if keys[0] == key {
      ValidateLaw(w, s, apps, key);
      ValidationFrame(w, o.store, apps, keys[1..], key);
    } else {
      ValidateFrame(w, s, apps, keys[0], key);
      ValidationLaw(w, o.store, apps, keys[1..], key);
    }
  }

  // ---- what a start makes of a job

  /** `v` is what a start makes of the job `u`: its data is merged with what the application supplies; its triggers
      stay, or if it has none, is enabled and has a valid expression, it gets one that fires by that, unless the name is
      taken. */
  ghost predicate IsStartedJob(w: World, u: View, site: string, e: Entry, stamp: string, taken: bool, v: View) {
    var key := JobKey(e.app + "_" + e.bean, site);
    var tk := TriggerKey(e.app + "_" + e.bean + "-crontrigger-" + stamp, site);
    && v.data.Some?
    && IsMerged(w, if u.data.Some? then u.data.value else EMPTY, site, e.app, e.job, e.bean, v.data.value)
    && var m := v.data.value;
    v.triggers == if u.triggers == map[] && m.enabled == Some(true) && m.cron.Some? && w.valid(m.cron.value) && !taken
                  then map[tk := Trigger(key, Cron(m.cron.value), false)] else u.triggers
  }

  lemma StartViewLaw(w: World, u: View, site: string, e: Entry, stamp: string, taken: bool)
    ensures IsStartedJob(w, u, site, e, stamp, taken, StartView(w, u, site, e, stamp, taken))
  {
    hide Merge, IsMerged;
    var d := if u.data.Some? then u.data.value else EMPTY;
    MergeLaw(w, d, site, e.app, e.job, e.bean);
    var m := Merge(w, d, site, e.app, e.job, e.bean);
    if Flag(m.enabled) {
      assert m.(enabled := Some(true)) == m;
    }
  }

  /** Between the stores `s` and `r` the bean's job was started. */
  ghost predicate Starts(w: World, s: Store, site: string, e: Entry, stamp: string, r: Store) {
    var key := JobKey(e.app + "_" + e.bean, site);
    var taken := TriggerKey(e.app + "_" + e.bean + "-crontrigger-" + stamp, site) in s.triggers;
    IsStartedJob(w, ViewOf(s, key), site, e, stamp, taken, ViewOf(r, key))
  }

  /** What a start makes of each job that it comes across. */
  lemma StartLaw(w: World, s: Store, site: string, es: seq<Entry>, stamp: string, e: Entry)
    requires DistinctKeys(site, es) && e in es
    ensures Starts(w, s, site, e, stamp, StartEntries(w, s, site, es, stamp))
  {
    hide ViewOf, StartEntries, StartView, IsStartedJob;
    var i :| 0 <= i < |es| && es[i] == e;
    StartEntriesView(w, s, site, es, stamp, i);
    StartViewLaw(w, ViewOf(s, KeyOf(site, e)), site, e, stamp, EntryTrigger(site, e, stamp) in s.triggers);
  }

  // ---- the first start of a job

  /** No trigger, and no expression that a start would keep; the job may not even be stored. */
  ghost predicate NeverScheduled(w: World, v: View) {
    v.triggers == map[] && (v.data.Some? && v.data.value.cron.Some? ==> w.blank(v.data.value.cron.value))
  }

  /** Up to the bean's name, validation leaves a job without triggers alone. */
  ghost predicate UpToName(v: View, u: View) {
    v.triggers == map[] && v.data.Some? == u.data.Some? && (u.data.Some? ==> Idle(v, u.data.value))
  }

  lemma ValidateKeepsUpToName(w: World, s: Store, apps: seq<App>, key: JobKey, u: View)
    requires WellBehaved(w) && UpToName(ViewOf(s, key), u)
    ensures UpToName(ViewOf(ValidateJob(w, s, apps, key).store, key), u)
  {
    hide ViewOf, Idle;
    DataOfView(s, key);
    if u.data.Some? {
      ValidateKeepsIdle(w, s, apps, key, u.data.value);
      IdleMeans(ViewOf(ValidateJob(w, s, apps, key).store, key), u.data.value);
    }
  }

  lemma IdleMeans(v: View, d: JobData)
    requires Idle(v, d)
    ensures v.triggers == map[] && v.data.Some?
  {
  }

  lemma {:induction false} ValidationsKeepUpToName(w: World, s: Store, apps: seq<App>, keys: seq<JobKey>, key: JobKey,
                                                   u: View)
    requires WellBehaved(w) && UpToName(ViewOf(s, key), u)
    ensures UpToName(ViewOf(ValidateJobs(w, s, apps, keys).store, key), u)
    decreases |keys|
  {
    hide UpToName, ViewOf, ValidateJob;
    if keys != [] {
      if keys[0] == key {
        ValidateKeepsUpToName(w, s, apps, key, u);
      } else {
        ValidateFrame(w, s, apps, keys[0], key);
      }
      if ValidateJob(w, s, apps, keys[0]).ok {
        ValidationsKeepUpToName(w, ValidateJob(w, s, apps, keys[0]).store, apps, keys[1..], key, u);
      }
    }
  }

  /** The job has one trigger, which fires by `c`. */
  ghost predicate FiresBy(v: View, c: string) {
    exists tk :: v.triggers.Keys == {tk} && v.triggers[tk].kind == Cron(c)
  }

  /** The application enables the job, or says nothing of it, and it is stored as enabled. */
  predicate Enables(v: View, e: Entry) {
    if DataOf(e.job).enabled.Some? then DataOf(e.job).enabled.value
    else v.data.Some? && v.data.value.enabled == Some(true)
  }

  lemma FirstView(w: World, v: View, site: string, e: Entry, stamp: string, taken: bool, c: string)
    requires WellBehaved(w) && NeverScheduled(w, v)
    ensures FiresBy(StartView(w, v, site, e, stamp, taken), c)
       <==> DataOf(e.job).cron == Some(c) && w.valid(c) && Enables(v, e) && !taken
  {
    hide StartView, IsUnion;
    var u := StartView(w, v, site, e, stamp, taken);
    StartViewLaw(w, v, site, e, stamp, taken);
    var tk := EntryTrigger(site, e, stamp);
    if tk in u.triggers {
      assert u.triggers == map[tk := u.triggers[tk]];
      assert u.triggers.Keys == {tk};
    }
  }

  /** A job that was never scheduled comes out of a start of its site with one trigger, which fires by `c`, exactly if
      its application supplies the valid expression `c`, the job is enabled, no listed job makes validation throw, and
      the trigger's name is not taken. */
  lemma FirstStartSchedules(w: World, s: Store, site: string, apps: seq<App>, keys: Option<seq<JobKey>>, e: Entry,
                            stamp: string, c: string)
    requires WellBehaved(w) && Inv(w, s) && DistinctKeys(site, Entries(apps)) && e in Entries(apps)
    requires keys.Some? ==> EachOnce(keys.value)
    requires NeverScheduled(w, ViewOf(s, KeyOf(site, e)))
    ensures FiresBy(ViewOf(Start(w, s, site, apps, keys, stamp).store, KeyOf(site, e)), c)
       <==> && DataOf(e.job).cron == Some(c) && w.valid(c) && Enables(ViewOf(s, KeyOf(site, e)), e)
            && AllNamed(w, s, keys) && NameFree(w, s, apps, keys, EntryTrigger(site, e, stamp))
  {
    hide ViewOf, StartEntries, ValidateJobs, Inv, Entries, KeyOf, HasName, NameFree, WellBehaved, FiresBy;
    hide Enables, UpToName, NeverScheduled, StartView;
    var key, valid := KeyOf(site, e), ValidateIf(w, s, apps, keys);
    var u, v := ViewOf(s, key), ViewOf(valid.store, key);
    NeverScheduledIsUpToName(w, u);
    if keys.Some? {
      ValidationThrows(w, s, apps, keys.value);
      ValidationsKeepUpToName(w, s, apps, keys.value, key, u);
    }
    UpToNameMeans(w, v, u, e, c);
    if valid.ok {
      ValidationFrees(w, s, apps, keys, EntryTrigger(site, e, stamp));
      var i :| 0 <= i < |Entries(apps)| && Entries(apps)[i] == e;
      StartEntriesView(w, valid.store, site, Entries(apps), stamp, i);
      FirstView(w, v, site, e, stamp, EntryTrigger(site, e, stamp) in valid.store.triggers, c);
    }
  }

  lemma NeverScheduledIsUpToName(w: World, u: View)
    requires NeverScheduled(w, u)
    ensures UpToName(u, u)
  {
  }

  lemma UpToNameMeans(w: World, v: View, u: View, e: Entry, c: string)
    requires UpToName(v, u) && NeverScheduled(w, u)
    ensures NeverScheduled(w, v) && Enables(v, e) == Enables(u, e) && !FiresBy(v, c)
  {
    if u.data.Some? {
      assert v.data.value.cron == u.data.value.cron && v.data.value.enabled == u.data.value.enabled;
    }
  }
}
