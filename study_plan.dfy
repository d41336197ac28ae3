/**
 * `generateStudyPlan` of src/lib/utils.ts. As written it selects nothing:
 * the plan carries the date, the target minutes and two empty lists, and
 * the modules passed in are never read.
 */
module StudyPlan {

  const DefaultTargetMinutes := 45

  /**
   * The plan object: its date (the injected clock), minutes, planned modules
   * and reviews. The two lists have element types of their own, unrelated to
   * the modules passed in.
   */
  datatype Plan<P, R> = Plan(date: int, estimatedMinutes: int, modules: seq<P>, reviews: seq<R>)

  /** utils.ts generateStudyPlan; `now` stands for `new Date()`. */
  function GenerateStudyPlan<M, P, R>(modules: seq<M>, now: int, targetMinutesPerDay: int := DefaultTargetMinutes)
    : (plan: Plan<P, R>)
    ensures plan.date == now && plan.estimatedMinutes == targetMinutesPerDay
    ensures plan.modules == [] && plan.reviews == []
  {
    Plan(now, targetMinutesPerDay, [], [])
  }

  /** The plan does not depend on which modules are passed in. */
  lemma PlanIgnoresModules<M, P, R>(ms1: seq<M>, ms2: seq<M>, now: int, target: int)
    ensures GenerateStudyPlan<M, P, R>(ms1, now, target) == GenerateStudyPlan<M, P, R>(ms2, now, target)
  {
  }

  /** Without a target the plan asks for 45 minutes. */
  lemma DefaultPlanMinutes<M, P, R>(ms: seq<M>, now: int)
    ensures GenerateStudyPlan<M, P, R>(ms, now).estimatedMinutes == 45
  {
  }
}
