/** The job-definition record an administrator submits to create or edit a
    scheduled job, with its data annotations. */
module QuartzDto {
  import opened Common
  import opened Clock

  /** A C# `int`. */
  newtype int32 = x: int | -0x8000_0000 <= x < 0x8000_0000

  /** The two trigger kinds of the `TriggerType` enumeration. */
  const Simple: int32 := 0
  const Cron: int32 := 1

  /** One job definition. `triggerType` keeps the raw enumeration value,
      since a C# enum field can hold any integer until the range
      annotation rejects it. */
  datatype JobDefinition = JobDefinition(
    id: int,
    taskName: Option<string>,
    taskGroup: Option<string>,
    cron: Option<string>,
    assemblyName: Option<string>,
    className: Option<string>,
    description: Option<string>,
    principal: Option<string>,
    alertEmail: Option<string>,
    pauseAfterFailure: bool,
    runTimes: int32,
    startTime: Option<DateTime>,
    endTime: Option<DateTime>,
    triggerType: int32,
    intervalSecond: int32,
    cycleRunTimes: int32,
    isEnable: bool,
    runParams: Option<string>)

  /** The record as `new CreateUpdateQuartzNetDto()` leaves it: reference
      fields null, numbers zero, and `IsEnable` false by its initialiser. */
  function NewDefinition(): (d: JobDefinition)
    ensures !d.isEnable && !d.pauseAfterFailure
    ensures d.taskName.None? && d.taskGroup.None? && d.cron.None?
      && d.assemblyName.None? && d.className.None?
    ensures d.triggerType == Simple && d.intervalSecond == 0
  {
    JobDefinition(0, None, None, None, None, None, None, None, None,
                  false, 0, None, None, 0, 0, 0, false, None)
  }

  /** What model validation checks: the four `[Required]` strings
      and the `[Range(0, 1)]` trigger type. A record that passes names its
      task, group, assembly and class, and its trigger type is Simple or
      Cron. */
  predicate AnnotationsValid(d: JobDefinition): (valid: bool)
    ensures valid ==>
      && !IsNullOrEmpty(d.taskName) && !IsNullOrEmpty(d.taskGroup)
      && !IsNullOrEmpty(d.assemblyName) && !IsNullOrEmpty(d.className)
    ensures valid ==> d.triggerType == Simple || d.triggerType == Cron
  {
    && !IsNullOrWhiteSpace(d.taskName)
    && !IsNullOrWhiteSpace(d.taskGroup)
    && !IsNullOrWhiteSpace(d.assemblyName)
    && !IsNullOrWhiteSpace(d.className)
    && 0 <= d.triggerType <= 1
  }

  /** Each required field on its own makes the record invalid when null or blank. */
  lemma RequiredFieldsAreRequired(d: JobDefinition, blank: Option<string>)
    requires IsNullOrWhiteSpace(blank)
    ensures !AnnotationsValid(d.(taskName := blank))
    ensures !AnnotationsValid(d.(taskGroup := blank))
    ensures !AnnotationsValid(d.(assemblyName := blank))
    ensures !AnnotationsValid(d.(className := blank))
  {
  }

  /** A trigger type outside 0..1 never passes validation. */
  lemma TriggerTypeOutOfRange(d: JobDefinition)
    requires d.triggerType < 0 || d.triggerType > 1
    ensures !AnnotationsValid(d)
  {
  }

  /** The freshly constructed record never passes validation: the
      required strings are still null. */
  lemma NewDefinitionIsInvalid()
    ensures !AnnotationsValid(NewDefinition())
  {
  }

  /** Validation does not look at the cron expression, the counters, the
      interval or the enable flag: any values of those keep the verdict. */
  lemma UnannotatedFieldsAreFree(d: JobDefinition, cron: Option<string>, interval: int32,
                                 cycles: int32, runs: int32, enable: bool)
    ensures AnnotationsValid(d) <==>
      AnnotationsValid(d.(cron := cron, intervalSecond := interval, cycleRunTimes := cycles,
                          runTimes := runs, isEnable := enable))
  {
  }
}
