/** What the operations do to one job: its own data and triggers, and nothing of the others. */
module SchedulerViews {
  import opened Options
  import opened Scheduler

  /** One job: its stored data, if there is such a job, and its triggers. */
  datatype View = View(data: Option<JobData>, triggers: map<TriggerKey, Trigger>)

  function ViewOf(s: Store, key: JobKey): View {
    View(
      if key in s.jobs then Some(s.jobs[key]) else None,
      map tk | tk in s.triggers && s.triggers[tk].job == key :: s.triggers[tk])
  }

  // ---- other jobs are left alone

  lemma SaveFrame(s: Store, key: JobKey, data: JobData, other: JobKey)
    ensures other != key ==> ViewOf(Save(s, key, data), other) == ViewOf(s, other)
    ensures ViewOf(Save(s, key, data), key) == View(Some(data), ViewOf(s, key).triggers)
  {
  }

  lemma AddFrame(s: Store, tk: TriggerKey, t: Trigger, other: JobKey)
    requires other != t.job
    ensures ViewOf(AddTrigger(s, tk, t).store, other) == ViewOf(s, other)
  {
  }

  lemma RemoveFrame(s: Store, tk: TriggerKey, other: JobKey)
    requires tk in s.triggers ==> s.triggers[tk].job != other
    ensures ViewOf(RemoveTrigger(s, tk), other) == ViewOf(s, other)
  {
  }

  lemma ScheduleFrame(w: World, s: Store, key: JobKey, data: JobData, id: string, group: string, stamp: string,
                      other: JobKey)
    requires other != key
    ensures ViewOf(ScheduleJob(w, s, key, data, id, group, stamp).store, other) == ViewOf(s, other)
  {
    hide ViewOf;
    var saved := Save(s, key, data.(enabled := Some(true)));
    SaveFrame(s, key, data.(enabled := Some(true)), other);
    if IsValid(w, data.cron) {
      AddFrame(saved, CronKey(id, stamp, group), Trigger(key, Cron(data.cron.value), false), other);
    }
  }

  lemma DeleteCronFrame(w: World, s: Store, key: JobKey, data: JobData, forced: bool, other: JobKey)
    requires WellBehaved(w) && other != key
    ensures ViewOf(DeleteCronTrigger(w, s, key, data, forced), other) == ViewOf(s, other)
  {
    hide ViewOf;
    match FirstCron(w, s, key)
    case Some(tk) =>
      var d := data.(cron := Some(s.triggers[tk].kind.expression), enabled := Some(false),
                     forcefullyDisabled := if forced then Some(true) else data.forcefullyDisabled);
      SaveFrame(s, key, d, other);
      assert tk in CronTriggersOf(s, key);
      RemoveFrame(Save(s, key, d), tk, other);
    case None =>
  }

  lemma RescheduleFrame(w: World, s: Store, key: JobKey, data: JobData, cron: Option<string>, other: JobKey)
    requires WellBehaved(w) && other != key
    ensures ViewOf(Reschedule(w, s, key, data, cron).store, other) == ViewOf(s, other)
  {
    match FirstCron(w, s, key)
    case Some(tk) => assert tk in CronTriggersOf(s, key);
    case None =>
  }

  lemma DeleteJobFrame(s: Store, key: JobKey, other: JobKey)
    requires other != key
    ensures ViewOf(DeleteJob(s, key), other) == ViewOf(s, other)
  {
  }

  // ---- the start of a bean, seen by its own job

  /** `taken`: the name that the new trigger would get is in use. */
  function StartView(w: World, v: View, site: string, e: Entry, stamp: string, taken: bool): View {
    var key := KeyOf(site, e);
    var d := Merge(w, if v.data.Some? then v.data.value else EMPTY, site, e.app, e.job, e.bean);
    var on := d.(enabled := Some(true));
    if !Flag(d.enabled) || v.triggers != map[] then View(Some(d), v.triggers)
    else if IsValid(w, d.cron) && !taken
    then View(Some(on), map[EntryTrigger(site, e, stamp) := Trigger(key, Cron(d.cron.value), false)])
    else View(Some(on), map[])
  }

  function EntryTrigger(site: string, e: Entry, stamp: string): TriggerKey {
    CronKey(KeyOf(site, e).name, stamp, site)
  }

  lemma NoTriggersMeansEmpty(s: Store, key: JobKey)
    ensures TriggersOf(s, key) == {} <==> ViewOf(s, key).triggers == map[]
  {
    var m := ViewOf(s, key).triggers;
    assert m.Keys == TriggersOf(s, key);
    if m.Keys == {} {
      assert m == map[];
    }
  }

  lemma ScheduleView(w: World, s: Store, key: JobKey, data: JobData, id: string, group: string, stamp: string)
    requires ViewOf(s, key).data == Some(data)
    ensures var v := ViewOf(ScheduleJob(w, s, key, data, id, group, stamp).store, key);
            var tk := CronKey(id, stamp, group);
            && (ViewOf(s, key).triggers != map[] ==> v == ViewOf(s, key))
            && (ViewOf(s, key).triggers == map[] ==>
                  && v.data == Some(data.(enabled := Some(true)))
                  && v.triggers == if IsValid(w, data.cron) && tk !in s.triggers
                                   then map[tk := Trigger(key, Cron(data.cron.value), false)] else map[])
  {
    NoTriggersMeansEmpty(s, key);
    if ViewOf(s, key).triggers == map[] {
      var saved := Save(s, key, data.(enabled := Some(true)));
      SaveFrame(s, key, data.(enabled := Some(true)), key);
      if IsValid(w, data.cron) {
        AddView(saved, CronKey(id, stamp, group), Trigger(key, Cron(data.cron.value), false));
      }
    }
  }

  lemma AddView(s: Store, tk: TriggerKey, t: Trigger)
    requires t.job in s.jobs
    ensures ViewOf(AddTrigger(s, tk, t).store, t.job).data == ViewOf(s, t.job).data
    ensures ViewOf(AddTrigger(s, tk, t).store, t.job).triggers
         == if tk in s.triggers then ViewOf(s, t.job).triggers else ViewOf(s, t.job).triggers[tk := t]
  {
  }

  /** What a start makes of a job depends on the job alone, and on whether its trigger's name is free. */
  lemma StartEntryView(w: World, s: Store, site: string, e: Entry, stamp: string)
    ensures ViewOf(StartEntry(w, s, site, e, stamp), KeyOf(site, e))
         == StartView(w, ViewOf(s, KeyOf(site, e)), site, e, stamp, EntryTrigger(site, e, stamp) in s.triggers)
  {
    hide ViewOf, ScheduleJob;
    var key, d := KeyOf(site, e), MergedData(w, s, site, e);
    assert ViewOf(s, key).data == if key in s.jobs then Some(s.jobs[key]) else None by {
      DataOfView(s, key);
    }
    SaveFrame(s, key, d, key);
    ScheduleView(w, Save(s, key, d), key, d, key.name, site, stamp);
  }

  lemma DataOfView(s: Store, key: JobKey)
    ensures ViewOf(s, key).data == if key in s.jobs then Some(s.jobs[key]) else None
  {
  }

  lemma StartEntryFrame(w: World, s: Store, site: string, e: Entry, stamp: string, other: JobKey)
    requires other != KeyOf(site, e)
    ensures ViewOf(StartEntry(w, s, site, e, stamp), other) == ViewOf(s, other)
  {
    hide ViewOf, ScheduleJob;
    var key, d := KeyOf(site, e), MergedData(w, s, site, e);
    SaveFrame(s, key, d, other);
    ScheduleFrame(w, Save(s, key, d), key, d, key.name, site, stamp, other);
  }

  lemma StartEntryTriggers(w: World, s: Store, site: string, e: Entry, stamp: string, tk: TriggerKey)
    requires tk != EntryTrigger(site, e, stamp)
    ensures tk in StartEntry(w, s, site, e, stamp).triggers <==> tk in s.triggers
  {
  }

  // ---- all beans

  ghost predicate DistinctKeys(site: string, es: seq<Entry>) {
    forall i, j :: 0 <= i < j < |es| ==> KeyOf(site, es[i]) != KeyOf(site, es[j])
  }

  lemma {:induction false} StartEntriesFrame(w: World, s: Store, site: string, es: seq<Entry>, stamp: string,
                                               other: JobKey)
    requires forall i :: 0 <= i < |es| ==> KeyOf(site, es[i]) != other
    ensures ViewOf(StartEntries(w, s, site, es, stamp), other) == ViewOf(s, other)
    decreases |es|
  {
    hide ViewOf, StartEntry;
    if es != [] {
      StartEntryFrame(w, s, site, es[0], stamp, other);
      StartEntriesFrame(w, StartEntry(w, s, site, es[0], stamp), site, es[1..], stamp, other);
    }
  }

  lemma EntryTriggersDiffer(site: string, e: Entry, f: Entry, stamp: string)
    requires KeyOf(site, e) != KeyOf(site, f)
    ensures EntryTrigger(site, e, stamp) != EntryTrigger(site, f, stamp)
  {
    var x, y := KeyOf(site, e).name, KeyOf(site, f).name;
    var tail := "-crontrigger-" + stamp;
    assert x + "-crontrigger-" + stamp == x + tail && y + "-crontrigger-" + stamp == y + tail;
    if x + tail == y + tail {
      AppendInjective(x, y, tail);
    }
  }

  lemma AppendInjective(x: string, y: string, tail: string)
    requires x + tail == y + tail
    ensures x == y
  {
    assert |x + tail| == |x| + |tail| && |y + tail| == |y| + |tail|;
    assert x == (x + tail)[..|x|] == (y + tail)[..|y|] == y;
  }

  /** In a site start without two beans for one job, each job comes out as from its own bean alone. */
  lemma {:induction false} StartEntriesView(w: World, s: Store, site: string, es: seq<Entry>, stamp: string, i: nat)
    requires DistinctKeys(site, es) && i < |es|
    ensures ViewOf(StartEntries(w, s, site, es, stamp), KeyOf(site, es[i]))
         == StartView(w, ViewOf(s, KeyOf(site, es[i])), site, es[i], stamp,
                      EntryTrigger(site, es[i], stamp) in s.triggers)
    decreases |es|
  {
    hide ViewOf, StartEntry, StartView, KeyOf, EntryTrigger;
    var key, next := KeyOf(site, es[i]), StartEntry(w, s, site, es[0], stamp);
    if i == 0 {
      StartEntryView(w, s, site, es[0], stamp);
      StartEntriesFrame(w, next, site, es[1..], stamp, key);
    } else {
      StartEntryFrame(w, s, site, es[0], stamp, key);
      EntryTriggersDiffer(site, es[0], es[i], stamp);
      StartEntryTriggers(w, s, site, es[0], stamp, EntryTrigger(site, es[i], stamp));
      StartEntriesView(w, next, site, es[1..], stamp, i - 1);
    }
  }

  // ---- job keys

  /** One of the names is the beginning of the other, up to a separator there. */
  predicate Clash(a: string, c: string) {
    c + "_" <= a || a + "_" <= c
  }

  /** Unless their names clash, beans of two applications never share a job. */
  lemma JobKeyInjective(site: string, a: string, b: string, c: string, d: string)
    requires !Clash(a, c)
    ensures GetJobKey(site, a, b) == GetJobKey(site, c, d) <==> a == c && b == d
  {
    var x, y := a + "_" + b, c + "_" + d;
    if x == y {
      if |a| < |c| {
        ShorterIsPrefix(a, b, c, d);
      } else if |c| < |a| {
        ShorterIsPrefix(c, d, a, b);
      } else {
        assert a == x[..|a|] == y[..|c|] == c;
        assert b == x[|a| + 1..] && d == y[|c| + 1..];
      }
    }
  }

  lemma ShorterIsPrefix(a: string, b: string, c: string, d: string)
    requires a + "_" + b == c + "_" + d && |a| < |c|
    ensures a + "_" <= c
  {
    var x, n := c + "_" + d, |a| + 1;
    assert a + "_" == (a + "_" + b)[..n] == x[..n] == c[..n];
  }

  /** Two applications can have beans that share a job exactly when their names clash. */
  lemma JobKeysClash(site: string, a: string, c: string)
    requires a != c
    ensures (exists b, d :: GetJobKey(site, a, b) == GetJobKey(site, c, d)) <==> Clash(a, c)
  {
    if !Clash(a, c) {
      forall b, d ensures GetJobKey(site, a, b) != GetJobKey(site, c, d) {
        JobKeyInjective(site, a, b, c, d);
      }
    } else if c + "_" <= a {
      SharedJob(site, a, c);
    } else {
      SharedJob(site, c, a);
    }
  }

  lemma SharedJob(site: string, a: string, c: string)
    requires c + "_" <= a
    ensures GetJobKey(site, a, "") == GetJobKey(site, c, a[|c| + 1..] + "_")
  {
    var rest := a[|c| + 1..];
    assert a == c + "_" + rest;
    assert a + "_" + "" == c + "_" + (rest + "_");
  }

  lemma JobKeyAmbiguous(site: string)
    ensures GetJobKey(site, "a_b", "c") == GetJobKey(site, "a", "b_c")
  {
    assert "a_b" + "_" + "c" == "a" + "_" + "b_c";
  }

  /** A site whose applications, and the beans of each, have distinct names; no two applications' names clash. */
  ghost predicate WellNamed(apps: seq<App>) {
    && (forall i, j :: 0 <= i < j < |apps| ==> apps[i].name != apps[j].name && !Clash(apps[i].name, apps[j].name))
    && (forall i :: 0 <= i < |apps| ==> DistinctBeans(apps[i].beans))
  }

  ghost predicate DistinctBeans(beans: seq<Bean>) {
    forall i, j :: 0 <= i < j < |beans| ==> beans[i].name != beans[j].name
  }

  lemma {:induction false} FindBeanHas(beans: seq<Bean>, name: string)
    requires FindBean(beans, name).Some?
    ensures exists j :: 0 <= j < |beans| && beans[j].name == name
    decreases |beans|
  {
    if beans[0].name != name {
      FindBeanHas(beans[1..], name);
      var j :| 0 <= j < |beans[1..]| && beans[1..][j].name == name;
      assert beans[j + 1].name == name;
    }
  }

  lemma {:induction false} FindAppHas(apps: seq<App>, name: Option<string>)
    requires FindApp(apps, name).Some?
    ensures exists j :: 0 <= j < |apps| && Some(apps[j].name) == name
    decreases |apps|
  {
    if Some(apps[0].name) != name {
      FindAppHas(apps[1..], name);
      var j :| 0 <= j < |apps[1..]| && Some(apps[1..][j].name) == name;
      assert Some(apps[j + 1].name) == name;
    }
  }

  ghost predicate DistinctEntries(es: seq<Entry>) {
    forall i, j :: 0 <= i < j < |es| ==> es[i].app != es[j].app || es[i].bean != es[j].bean
  }

  ghost predicate IsBeanEntry(app: string, beans: seq<Bean>, e: Entry) {
    e.app == app && FindBean(beans, e.bean) == Some(e.job)
  }

  lemma {:induction false} BeanEntriesAre(app: string, beans: seq<Bean>)
    requires DistinctBeans(beans)
    ensures forall e :: e in BeanEntries(app, beans) ==> IsBeanEntry(app, beans, e)
    ensures DistinctEntries(BeanEntries(app, beans))
    decreases |beans|
  {
    if beans != [] {
      BeanEntriesAre(app, beans[1..]);
      var rest := BeanEntries(app, beans[1..]);
      forall e | e in rest ensures e.bean != beans[0].name && IsBeanEntry(app, beans, e) {
        assert IsBeanEntry(app, beans[1..], e);
        FindBeanHas(beans[1..], e.bean);
      }
    }
  }

  ghost predicate IsEntry(apps: seq<App>, e: Entry) {
    && FindApp(apps, Some(e.app)).Some?
    && FindBean(FindApp(apps, Some(e.app)).value.beans, e.bean) == Some(e.job)
  }

  lemma {:induction false} EntriesAre(apps: seq<App>)
    requires WellNamed(apps)
    ensures forall e :: e in Entries(apps) ==> IsEntry(apps, e)
    ensures DistinctEntries(Entries(apps))
    decreases |apps|
  {
    if apps != [] {
      BeanEntriesAre(apps[0].name, apps[0].beans);
      EntriesAre(apps[1..]);
      var own, rest := BeanEntries(apps[0].name, apps[0].beans), Entries(apps[1..]);
      assert Entries(apps) == own + rest;
      forall e | e in own ensures e.app == apps[0].name && IsEntry(apps, e) {
        assert IsBeanEntry(apps[0].name, apps[0].beans, e);
      }
      forall e | e in rest ensures e.app != apps[0].name && IsEntry(apps, e) {
        assert IsEntry(apps[1..], e);
        FindAppHas(apps[1..], Some(e.app));
      }
    }
  }

  lemma EntryAppsDoNotClash(apps: seq<App>, e: Entry, f: Entry)
    requires WellNamed(apps) && IsEntry(apps, e) && IsEntry(apps, f)
    ensures !Clash(e.app, f.app)
  {
    FindAppHas(apps, Some(e.app));
    FindAppHas(apps, Some(f.app));
    var i :| 0 <= i < |apps| && Some(apps[i].name) == Some(e.app);
    var j :| 0 <= j < |apps| && Some(apps[j].name) == Some(f.app);
    assert i == j || !Clash(apps[i].name, apps[j].name);
  }

  /** In a well named site no two beans share a job. */
  lemma EntriesHaveDistinctKeys(site: string, apps: seq<App>)
    requires WellNamed(apps)
    ensures DistinctKeys(site, Entries(apps))
  {
    EntriesAre(apps);
    var es := Entries(apps);
    forall i, j | 0 <= i < j < |es| ensures KeyOf(site, es[i]) != KeyOf(site, es[j]) {
      EntryAppsDoNotClash(apps, es[i], es[j]);
      JobKeyInjective(site, es[i].app, es[i].bean, es[j].app, es[j].bean);
    }
  }
}
