/** The data of a job that an application supplies, key by key. */
module SchedulerMerge {
  import opened Options
  import opened Scheduler

  /** What an application says about a job's data: nothing is as good as an empty map. */
  function DataOf(job: Scheduled): JobData {
    if job.data.Some? then job.data.value else EMPTY
  }

  /** `m` is what becomes of the stored data `d`. A stored expression that is not blank is kept, with the enabled state
      of the job, unless the state is forced; a mark enables it once. Everything else is supplied, or else stored. */
  ghost predicate IsMerged(w: World, d: JobData, site: string, app: string, job: Scheduled, bean: string, m: JobData) {
    var a := DataOf(job);
    var force := if a.forceState.Some? then a.forceState else d.forceState;
    var mark := if a.forcefullyDisabled.Some? then a.forcefullyDisabled else d.forcefullyDisabled;
    var kept := d.cron.Some? && !w.blank(d.cron.value) && force != Some(true);
    && m.cron == (if !kept && a.cron.Some? then a.cron else d.cron)
    && m.enabled == (if kept then Some(mark == Some(true) || d.enabled == Some(true))
                     else if a.enabled.Some? then a.enabled else d.enabled)
    && m.forceState == force
    && m.forcefullyDisabled == (if mark == Some(true) then None else mark)
    && m.scheduledJob == (if a.scheduledJob.Some? then a.scheduledJob else Some(job.className))
    && m.origin == (if a.origin.Some? then a.origin else Some(app))
    && m.siteName == (if a.siteName.Some? then a.siteName else Some(site))
    && m.beanName == (if a.beanName.Some? then a.beanName else Some(bean))
    && IsUnion(d.other, a.other, m.other)
  }

  ghost predicate IsUnion(d: map<string, string>, a: map<string, string>, m: map<string, string>) {
    && (forall k :: k in m <==> k in a || k in d)
    && (forall k :: k in m ==> m[k] == if k in a then a[k] else d[k])
  }

  lemma UnionLaw(d: map<string, string>, a: map<string, string>)
    ensures IsUnion(d, a, d + a) && IsUnion(d, map[], d)
  {
  }

  lemma MergeLaw(w: World, d: JobData, site: string, app: string, job: Scheduled, bean: string)
    ensures IsMerged(w, d, site, app, job, bean, Merge(w, d, site, app, job, bean))
  {
    hide IsUnion;
    UnionLaw(d.other, DataOf(job).other);
  }
}
