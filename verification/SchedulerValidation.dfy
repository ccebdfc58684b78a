/** Validation at the start of a site: what it removes, when it throws, and what it leaves alone. */
module SchedulerValidation {
  import opened Options
  import opened Scheduler
  import opened SchedulerRuns
  import opened SchedulerViews

  ghost predicate EachOnce(keys: seq<JobKey>) {
    forall i, j :: 0 <= i < j < |keys| ==> keys[i] != keys[j]
  }

  /** `keys` lists the site's jobs, each once. */
  ghost predicate Lists(s: Store, site: string, keys: seq<JobKey>) {
    (forall key :: key in keys <==> key in s.jobs && key.group == site) && EachOnce(keys)
  }

  // ---- one job at a time

  lemma ValidateFrame(w: World, s: Store, apps: seq<App>, key: JobKey, other: JobKey)
    requires WellBehaved(w) && other != key
    ensures ViewOf(ValidateJob(w, s, apps, key).store, other) == ViewOf(s, other)
  {
    hide ViewOf, DeleteCronTrigger, BeanExists, Named;
    if key in s.jobs && Named(w, key, s.jobs[key]).Some? {
      var d := Named(w, key, s.jobs[key]).value;
      SaveFrame(s, key, d, other);
      DeleteCronFrame(w, Save(s, key, d), key, d, true, other);
    }
  }

  lemma NoCronWithoutTriggers(s: Store, key: JobKey)
    requires TriggersOf(s, key) == {}
    ensures CronTriggersOf(s, key) == {}
  {
    forall tk ensures tk !in CronTriggersOf(s, key) {
      assert tk !in TriggersOf(s, key);
    }
  }

  lemma {:induction false} ValidationFrame(w: World, s: Store, apps: seq<App>, keys: seq<JobKey>, other: JobKey)
    requires WellBehaved(w) && other !in keys
    ensures ViewOf(ValidateJobs(w, s, apps, keys).store, other) == ViewOf(s, other)
    decreases |keys|
  {
    hide ViewOf, ValidateJob;
    if keys != [] {
      ValidateFrame(w, s, apps, keys[0], other);
      if ValidateJob(w, s, apps, keys[0]).ok {
        ValidationFrame(w, ValidateJob(w, s, apps, keys[0]).store, apps, keys[1..], other);
      }
    }
  }

  lemma NamedTwice(w: World, key: JobKey, d: JobData, d': JobData)
    requires Named(w, key, d).Some? && d'.origin == d.origin && d'.beanName == Named(w, key, d).value.beanName
    ensures Named(w, key, d') == Some(d')
  {
  }

  // ---- what is removed

  /** The job's application, or its bean there, does not exist. */
  predicate Missing(w: World, apps: seq<App>, key: JobKey, d: JobData) {
    var n := Named(w, key, d);
    n.Some? && !(n.value.beanName.Some? && BeanExists(apps, n.value.origin, n.value.beanName.value))
  }

  /** The cron triggers that validation is for: of a listed job whose application or bean is missing. */
  predicate Doomed(w: World, s: Store, apps: seq<App>, keys: seq<JobKey>, tk: TriggerKey)
    requires tk in s.triggers
  {
    var t := s.triggers[tk];
    t.kind.Cron? && t.job in keys && t.job in s.jobs && Missing(w, apps, t.job, s.jobs[t.job])
  }

  lemma ValidateRemoves(w: World, s: Store, apps: seq<App>, key: JobKey)
    requires WellBehaved(w) && Inv(w, s) && ValidateJob(w, s, apps, key).ok
    ensures var s' := ValidateJob(w, s, apps, key).store;
            && (forall tk :: tk in s'.triggers <==> tk in s.triggers && !Doomed(w, s, apps, [key], tk))
            && (forall tk :: tk in s'.triggers ==> s'.triggers[tk] == s.triggers[tk])
  {
    hide BeanExists, Named, Inv, WellBehaved;
    var d := Named(w, key, s.jobs[key]).value;
    var saved := Save(s, key, d);
    assert CronTriggersOf(saved, key) == CronTriggersOf(s, key);
    forall tk | tk in CronTriggersOf(s, key)
      ensures FirstCron(w, saved, key) == Some(tk) && d.cron.Some?
    {
      FirstIsOnly(w, s, key, tk);
      CronIsStored(w, s, key, tk);
      NamedKeepsCron(w, key, s.jobs[key]);
    }
    FirstIsMember(w, saved, key);
    forall tk | tk in s.triggers
      ensures Doomed(w, s, apps, [key], tk) <==> tk in CronTriggersOf(s, key) && Missing(w, apps, key, s.jobs[key])
    {
      assert s.triggers[tk].job in [key] <==> s.triggers[tk].job == key;
    }
  }

  lemma FirstIsMember(w: World, s: Store, key: JobKey)
    requires WellBehaved(w)
    ensures FirstCron(w, s, key).Some? ==> FirstCron(w, s, key).value in CronTriggersOf(s, key)
  {
  }

  lemma NamedKeepsCron(w: World, key: JobKey, d: JobData)
    requires Named(w, key, d).Some?
    ensures Named(w, key, d).value.(beanName := d.beanName) == d
  {
  }

  /** Validation removes the cron triggers of exactly those jobs that have one and whose application or bean is
      missing. */
  lemma {:induction false} ValidationRemovesExactly(w: World, s: Store, apps: seq<App>, keys: seq<JobKey>)
    requires WellBehaved(w) && Inv(w, s) && ValidateJobs(w, s, apps, keys).ok
    requires EachOnce(keys)
    ensures var s' := ValidateJobs(w, s, apps, keys).store;
            && (forall tk :: tk in s'.triggers <==> tk in s.triggers && !Doomed(w, s, apps, keys, tk))
            && (forall tk :: tk in s'.triggers ==> s'.triggers[tk] == s.triggers[tk])
    decreases |keys|
  {
    hide Inv, Missing, ValidateJob;
    if keys != [] {
      var o := ValidateJob(w, s, apps, keys[0]);
      ValidateRemoves(w, s, apps, keys[0]);
      ValidateJobKeepsInv(w, s, apps, keys[0]);
      ValidationRemovesExactly(w, o.store, apps, keys[1..]);
      forall tk | tk in o.store.triggers
        ensures Doomed(w, o.store, apps, keys[1..], tk) || Doomed(w, s, apps, [keys[0]], tk)
                <==> Doomed(w, s, apps, keys, tk)
      {
        var key := s.triggers[tk].job;
        if key != keys[0] {
          ValidateFrame(w, s, apps, keys[0], key);
          DataOfView(s, key);
          DataOfView(o.store, key);
        } else {
          assert key !in keys[1..];
        }
      }
    }
  }

  // ---- when it throws

  /** Every listed job exists and has a bean name or an own name to take it from. */
  ghost predicate AllNamed(w: World, s: Store, keys: Option<seq<JobKey>>) {
    keys.Some? ==> forall key :: key in keys.value ==> HasName(w, ViewOf(s, key), key)
  }

  predicate HasName(w: World, v: View, key: JobKey) {
    v.data.Some? && Named(w, key, v.data.value).Some?
  }

  lemma ValidateThrows(w: World, s: Store, apps: seq<App>, key: JobKey)
    requires WellBehaved(w)
    ensures ValidateJob(w, s, apps, key).ok <==> HasName(w, ViewOf(s, key), key)
  {
    DataOfView(s, key);
  }

  lemma {:induction false} ValidationThrows(w: World, s: Store, apps: seq<App>, keys: seq<JobKey>)
    requires WellBehaved(w) && EachOnce(keys)
    ensures ValidateJobs(w, s, apps, keys).ok <==> AllNamed(w, s, Some(keys))
    decreases |keys|
  {
    hide ViewOf, ValidateJob, Named;
    if keys != [] {
      var o := ValidateJob(w, s, apps, keys[0]);
      ValidateThrows(w, s, apps, keys[0]);
      ValidationThrows(w, o.store, apps, keys[1..]);
      forall key | key in keys[1..] ensures ViewOf(o.store, key) == ViewOf(s, key) {
        ValidateFrame(w, s, apps, keys[0], key);
      }
      assert forall key :: key in keys <==> key == keys[0] || key in keys[1..];
    }
  }

  // ---- which trigger names it leaves free

  /** The name is not in use, or by a trigger that validation removes. */
  ghost predicate NameFree(w: World, s: Store, apps: seq<App>, keys: Option<seq<JobKey>>, tk: TriggerKey) {
    tk in s.triggers ==> keys.Some? && Doomed(w, s, apps, keys.value, tk)
  }

  lemma ValidationFrees(w: World, s: Store, apps: seq<App>, keys: Option<seq<JobKey>>, tk: TriggerKey)
    requires WellBehaved(w) && Inv(w, s) && (keys.Some? ==> EachOnce(keys.value)) && ValidateIf(w, s, apps, keys).ok
    ensures tk !in ValidateIf(w, s, apps, keys).store.triggers <==> NameFree(w, s, apps, keys, tk)
  {
    hide Inv, Doomed, ValidateJobs;
    if keys.Some? {
      ValidationRemovesExactly(w, s, apps, keys.value);
    }
  }
}
