/** Jobs and triggers of the scheduler: what each service operation does to them. */
module Scheduler {
  import opened Options

  datatype JobKey = JobKey(name: string, group: string)

  datatype TriggerKey = TriggerKey(name: string, group: string)

  datatype Kind = Cron(expression: string) | Simple

  datatype Trigger = Trigger(job: JobKey, kind: Kind, complete: bool)

  /** A job's data map: the reserved keys, and all others. */
  datatype JobData = JobData(
    cron: Option<string>,
    enabled: Option<bool>,
    forceState: Option<bool>,
    forcefullyDisabled: Option<bool>,
    scheduledJob: Option<string>,
    origin: Option<string>,
    siteName: Option<string>,
    beanName: Option<string>,
    other: map<string, string>)

  const EMPTY := JobData(None, None, None, None, None, None, None, None, map[])

  /** A missing flag reads as false. */
  predicate Flag(b: Option<bool>) {
    b == Some(true)
  }

  /** `putAll`: what is supplied wins. */
  function PutAll(d: JobData, a: JobData): JobData {
    JobData(Or(a.cron, d.cron), Or(a.enabled, d.enabled), Or(a.forceState, d.forceState),
            Or(a.forcefullyDisabled, d.forcefullyDisabled), Or(a.scheduledJob, d.scheduledJob), Or(a.origin, d.origin),
            Or(a.siteName, d.siteName), Or(a.beanName, d.beanName), d.other + a.other)
  }

  function Or<T>(a: Option<T>, b: Option<T>): Option<T> {
    if a.Some? then a else b
  }

  /** What the job store holds. */
  datatype Store = Store(jobs: map<JobKey, JobData>, triggers: map<TriggerKey, Trigger>)

  /** Which cron expressions parse, which strings are blank, and which of several triggers is listed first. */
  datatype World = World(valid: string -> bool, blank: string -> bool, first: set<TriggerKey> -> TriggerKey)

  ghost predicate WellBehaved(w: World) {
    && (forall c :: w.valid(c) ==> !w.blank(c))
    && (forall ks {:trigger w.first(ks)} :: ks != {} ==> w.first(ks) in ks)
  }

  /** The outcome of an operation that may throw midway. */
  datatype Outcome = Outcome(store: Store, ok: bool)

  // ---- the job store

  function TriggersOf(s: Store, key: JobKey): set<TriggerKey> {
    set tk | tk in s.triggers && s.triggers[tk].job == key
  }

  function CronTriggersOf(s: Store, key: JobKey): set<TriggerKey> {
    set tk | tk in s.triggers && s.triggers[tk].job == key && s.triggers[tk].kind.Cron?
  }

  function FirstCron(w: World, s: Store, key: JobKey): Option<TriggerKey> {
    if CronTriggersOf(s, key) == {} then None else Some(w.first(CronTriggersOf(s, key)))
  }

  predicate Running(s: Store, key: JobKey) {
    exists tk :: tk in TriggersOf(s, key) && s.triggers[tk].complete
  }

  /** Stores the job's data; its triggers stay. */
  function Save(s: Store, key: JobKey, data: JobData): Store {
    s.(jobs := s.jobs[key := data])
  }

  /** A trigger whose key is taken, or whose job is unknown, is refused. */
  function AddTrigger(s: Store, tk: TriggerKey, t: Trigger): Outcome {
    if tk in s.triggers || t.job !in s.jobs then Outcome(s, false)
    else Outcome(s.(triggers := s.triggers[tk := t]), true)
  }

  function RemoveTrigger(s: Store, tk: TriggerKey): Store {
    s.(triggers := s.triggers - {tk})
  }

  // ---- the service operations

  function CronKey(id: string, stamp: string, group: string): TriggerKey {
    TriggerKey(id + "-crontrigger-" + stamp, group)
  }

  function SimpleKey(id: string, stamp: string, group: string): TriggerKey {
    TriggerKey(id + "-simpletrigger-" + stamp, group)
  }

  predicate IsValid(w: World, cron: Option<string>) {
    cron.Some? && w.valid(cron.value)
  }

  function ScheduleJob(w: World, s: Store, key: JobKey, data: JobData, id: string, group: string, stamp: string)
    : Outcome
  {
    if TriggersOf(s, key) != {} then Outcome(s, true)
    else
      var saved := Save(s, key, data.(enabled := Some(true)));
      if IsValid(w, data.cron)
      then AddTrigger(saved, CronKey(id, stamp, group), Trigger(key, Cron(data.cron.value), false))
      else Outcome(saved, true)
  }

  /** Only a valid expression can replace that of an existing trigger. */
  function Reschedule(w: World, s: Store, key: JobKey, data: JobData, cron: Option<string>): Outcome
    requires WellBehaved(w)
  {
    var saved := data.(cron := cron);
    match FirstCron(w, s, key)
    case Some(tk) =>
      if !IsValid(w, cron) then Outcome(s, false)
      else Outcome(Save(s.(triggers := s.triggers[tk := Trigger(key, Cron(cron.value), false)]), key, saved), true)
    case None => Outcome(Save(s, key, saved), true)
  }

  function DeleteCronTrigger(w: World, s: Store, key: JobKey, data: JobData, forced: bool): Store
    requires WellBehaved(w)
  {
    match FirstCron(w, s, key)
    case Some(tk) =>
      var disabled := data.(
        cron := Some(s.triggers[tk].kind.expression),
        enabled := Some(false),
        forcefullyDisabled := if forced then Some(true) else data.forcefullyDisabled);
      RemoveTrigger(Save(s, key, disabled), tk)
    case None => s
  }

  function AddSimpleTrigger(s: Store, key: JobKey, id: string, stamp: string): Outcome {
    if Running(s, key) then Outcome(s, true)
    else AddTrigger(s, SimpleKey(id, stamp, key.group), Trigger(key, Simple, false))
  }

  function DeleteJob(s: Store, key: JobKey): Store {
    if Running(s, key) then s else Store(s.jobs - {key}, s.triggers - TriggersOf(s, key))
  }

  // ---- what an application says about a job

  datatype Scheduled = Scheduled(className: string, data: Option<JobData>)

  /** Supplied data is merged into stored data, which keeps its cron expression and enabled state unless forced. */
  function Merge(w: World, d: JobData, site: string, app: string, job: Scheduled, bean: string): JobData {
    var named := d.(
      scheduledJob := Some(job.className), origin := Some(app), siteName := Some(site), beanName := Some(bean));
    var put := if job.data.Some? then PutAll(named, job.data.value) else named;
    var enabled := if Flag(put.forcefullyDisabled) then true else Flag(d.enabled);
    var cleared := if Flag(put.forcefullyDisabled) then put.(forcefullyDisabled := None) else put;
    if d.cron.Some? && !w.blank(d.cron.value) && !Flag(cleared.forceState)
    then cleared.(cron := d.cron, enabled := Some(enabled))
    else cleared
  }

  function GetJobKey(site: string, app: string, bean: string): JobKey {
    JobKey(app + "_" + bean, site)
  }

  function StoredData(s: Store, key: JobKey): JobData {
    if key in s.jobs then s.jobs[key] else EMPTY
  }

  // ---- the start of a site

  /** A bean of an application; the application may fail to deliver it. */
  datatype Bean = Bean(name: string, job: Option<Scheduled>)

  datatype App = App(name: string, beans: seq<Bean>)

  /** A job bean that the start of a site comes across. */
  datatype Entry = Entry(app: string, bean: string, job: Scheduled)

  function BeanEntries(app: string, beans: seq<Bean>): seq<Entry> {
    if beans == [] then []
    else
      (if beans[0].job.Some? then [Entry(app, beans[0].name, beans[0].job.value)] else [])
      + BeanEntries(app, beans[1..])
  }

  function Entries(apps: seq<App>): seq<Entry> {
    if apps == [] then [] else BeanEntries(apps[0].name, apps[0].beans) + Entries(apps[1..])
  }

  function KeyOf(site: string, e: Entry): JobKey {
    GetJobKey(site, e.app, e.bean)
  }

  function MergedData(w: World, s: Store, site: string, e: Entry): JobData {
    Merge(w, StoredData(s, KeyOf(site, e)), site, e.app, e.job, e.bean)
  }

  /** One bean. What is thrown is caught and logged. */
  function StartEntry(w: World, s: Store, site: string, e: Entry, stamp: string): Store {
    var key := KeyOf(site, e);
    var d := MergedData(w, s, site, e);
    if Flag(d.enabled) then ScheduleJob(w, Save(s, key, d), key, d, key.name, site, stamp).store else Save(s, key, d)
  }

  function StartEntries(w: World, s: Store, site: string, es: seq<Entry>, stamp: string): Store
    decreases |es|
  {
    if es == [] then s else StartEntries(w, StartEntry(w, s, site, es[0], stamp), site, es[1..], stamp)
  }

  function FindBean(beans: seq<Bean>, name: string): Option<Scheduled> {
    if beans == [] then None else if beans[0].name == name then beans[0].job else FindBean(beans[1..], name)
  }

  function FindApp(apps: seq<App>, name: Option<string>): Option<App> {
    if apps == [] then None else if Some(apps[0].name) == name then Some(apps[0]) else FindApp(apps[1..], name)
  }

  predicate BeanExists(apps: seq<App>, app: Option<string>, bean: string) {
    FindApp(apps, app).Some? && FindBean(FindApp(apps, app).value.beans, bean).Some?
  }

  predicate Blank(w: World, t: Option<string>) {
    t.None? || w.blank(t.value)
  }

  /** The job's data with its bean name filled in from the job's own name. */
  function Named(w: World, key: JobKey, d: JobData): Option<JobData> {
    if !Blank(w, d.beanName) then Some(d)
    else if d.origin.None? || |d.origin.value| + 1 > |key.name| then None
    else Some(d.(beanName := Some(key.name[|d.origin.value| + 1..])))
  }

  function ValidateJob(w: World, s: Store, apps: seq<App>, key: JobKey): Outcome
    requires WellBehaved(w)
  {
    if key !in s.jobs || Named(w, key, s.jobs[key]).None? then Outcome(s, false)
    else
      var d := Named(w, key, s.jobs[key]).value;
      var saved := Save(s, key, d);
      if !(d.beanName.Some? && BeanExists(apps, d.origin, d.beanName.value)) && d.cron.Some?
      then Outcome(DeleteCronTrigger(w, saved, key, d, true), true)
      else Outcome(saved, true)
  }

  function ValidateJobs(w: World, s: Store, apps: seq<App>, keys: seq<JobKey>): Outcome
    requires WellBehaved(w)
    decreases |keys|
  {
    if keys == [] then Outcome(s, true)
    else
      var o := ValidateJob(w, s, apps, keys[0]);
      if o.ok then ValidateJobs(w, o.store, apps, keys[1..]) else o
  }

  /** `keys` lists the site's jobs, if they are to be validated. */
  function ValidateIf(w: World, s: Store, apps: seq<App>, keys: Option<seq<JobKey>>): Outcome
    requires WellBehaved(w)
  {
    if keys.Some? then ValidateJobs(w, s, apps, keys.value) else Outcome(s, true)
  }

  function Start(w: World, s: Store, site: string, apps: seq<App>, keys: Option<seq<JobKey>>, stamp: string): Outcome
    requires WellBehaved(w)
  {
    var o := ValidateIf(w, s, apps, keys);
    if o.ok then Outcome(StartEntries(w, o.store, site, Entries(apps), stamp), true) else o
  }

  // ---- steps

  const ACTION_DELETE := "delete"
  const ACTION_START := "start"
  const ACTION_UNSCHEDULE := "unschedule"
  const ACTION_SCHEDULE := "schedule"

  /** A user's action on a job. Only `schedule` looks whether there is such a job; the others throw without one. */
  function SetState(w: World, s: Store, site: string, action: string, id: string, stamp: string): Outcome
    requires WellBehaved(w)
  {
    var key := JobKey(id, site);
    if action == ACTION_SCHEDULE then
      if key in s.jobs then ScheduleJob(w, s, key, s.jobs[key], id, site, stamp) else Outcome(s, true)
    else if action == ACTION_UNSCHEDULE then
      if key in s.jobs then Outcome(DeleteCronTrigger(w, s, key, s.jobs[key], false), true) else Outcome(s, false)
    else if action == ACTION_START then
      if key in s.jobs then AddSimpleTrigger(s, key, id, stamp) else Outcome(s, false)
    else if action == ACTION_DELETE then
      if key in s.jobs then Outcome(DeleteJob(s, key), true) else Outcome(s, false)
    else Outcome(s, true)
  }

  /** A user's new cron expression for a job. */
  function Update(w: World, s: Store, site: string, id: string, cron: Option<string>): Outcome
    requires WellBehaved(w)
  {
    var key := JobKey(id, site);
    if cron.Some? && !w.valid(cron.value) then Outcome(s, true)
    else if key in s.jobs then Reschedule(w, s, key, s.jobs[key], cron)
    else Outcome(s, true)
  }

  /** The steps of users and sites, and those of time: a trigger completes, or is spent and goes. */
  datatype Step =
    | Acting(site: string, action: string, id: string, stamp: string)
    | Updating(site: string, id: string, cron: Option<string>)
    | Starting(site: string, apps: seq<App>, keys: Option<seq<JobKey>>, stamp: string)
    | Completing(trigger: TriggerKey)
    | Expiring(trigger: TriggerKey)

  function Take(w: World, s: Store, step: Step): Store
    requires WellBehaved(w)
  {
    match step
    case Acting(site, action, id, stamp) => SetState(w, s, site, action, id, stamp).store
    case Updating(site, id, cron) => Update(w, s, site, id, cron).store
    case Starting(site, apps, keys, stamp) => Start(w, s, site, apps, keys, stamp).store
    case Completing(tk) =>
      if tk in s.triggers then s.(triggers := s.triggers[tk := s.triggers[tk].(complete := true)]) else s
    case Expiring(tk) => RemoveTrigger(s, tk)
  }

  function Run(w: World, s: Store, steps: seq<Step>): Store
    requires WellBehaved(w)
    decreases |steps|
  {
    if steps == [] then s else Run(w, Take(w, s, steps[0]), steps[1..])
  }
}
