/**
 * The step bookkeeping of the `NewScenario` page: which steps the user has
 * visited (`completedSteps`), which form groups count as touched, and the
 * six-step `stepperConfig` derived from them. The validity of the product,
 * respondents, impact-driver, eNPS and comments form groups comes from
 * Angular's validators and is a parameter here; the criteria step's flags
 * come from the page's criteria groups.
 */
module NewScenarioSteps {
  import opened Common
  import opened Criteria
  import Stepper
  import NewScenarioCriteria

  /** The step ids, in wizard order. */
  const ProductId := "product"
  const RespondentsId := "respondents"
  const CriteriaId := "criteria"
  const DriversId := "drivers"
  const EnpsId := "enps"
  const CommentsId := "comments"
  const StepIds := [ProductId, RespondentsId, CriteriaId, DriversId, EnpsId, CommentsId]

  /** The page's step bookkeeping: visited step ids and touched step ids
      (the six `*GroupTouched` signals, one per known id). */
  datatype Wizard = Wizard(visited: set<string>, touched: set<string>)

  /** Validity of the form groups whose status Angular computes. */
  datatype GroupValidity = GroupValidity(product: bool, respondents: bool, drivers: bool, enps: bool, comments: bool)

  /** The constructor: only the first step is visited, nothing is touched. */
  const Initial := Wizard({ProductId}, {})

  /** `markStepAsCompleted`: the id joins the visited set. */
  function MarkStepAsCompleted(w: Wizard, id: string): (r: Wizard)
    ensures r.visited == w.visited + {id} && r.touched == w.touched
  {
    w.(visited := w.visited + {id})
  }

  /** `markStepAsTouched`: a known id is marked touched; any other id is
      ignored by the switch. */
  function MarkStepAsTouched(w: Wizard, id: string): (r: Wizard)
    ensures r.visited == w.visited
    ensures id in StepIds ==> r.touched == w.touched + {id}
    ensures id !in StepIds ==> r == w
  {
    if id in StepIds then w.(touched := w.touched + {id}) else w
  }

  /** `markAllStepsAsTouched`. */
  function MarkAllStepsAsTouched(w: Wizard): (r: Wizard)
    ensures r.visited == w.visited
    ensures forall id :: id in r.touched <==> id in w.touched || id in StepIds
  {
    w.(touched := w.touched + {ProductId, RespondentsId, CriteriaId, DriversId, EnpsId, CommentsId})
  }

  /** `onStepChanged`: the target step becomes visited and, when the source
      index names a step, that step becomes touched. */
  function OnStepChanged(w: Wizard, fromIndex: int, stepId: string): (r: Wizard)
    ensures r.visited == w.visited + {stepId}
    ensures 0 <= fromIndex < |StepIds| ==> r.touched == w.touched + {StepIds[fromIndex]}
    ensures !(0 <= fromIndex < |StepIds|) ==> r.touched == w.touched
  {
    var v := MarkStepAsCompleted(w, stepId);
    if 0 <= fromIndex < |StepIds| then MarkStepAsTouched(v, StepIds[fromIndex]) else v
  }

  /** A user event that changes the bookkeeping. */
  datatype Event = Completed(id: string) | Touched(id: string) | Changed(fromIndex: int, stepId: string) | TouchAll

  /** The bookkeeping after a sequence of events. */
  function Apply(w: Wizard, events: seq<Event>): Wizard
    decreases |events|
  {
    if events == [] then w
    else
      var w1 := match events[0]
        case Completed(id) => MarkStepAsCompleted(w, id)
        case Touched(id) => MarkStepAsTouched(w, id)
        case Changed(f, id) => OnStepChanged(w, f, id)
        case TouchAll => MarkAllStepsAsTouched(w);
      Apply(w1, events[1..])
  }

  /** Visited and touched steps only ever grow, so the first step stays
      visited whatever the user does. */
  lemma {:induction false} BookkeepingGrows(w: Wizard, events: seq<Event>)
    ensures w.visited <= Apply(w, events).visited
    ensures w.touched <= Apply(w, events).touched
    decreases |events|
  {
    if events != [] {
      var w1 := match events[0]
        case Completed(id) => MarkStepAsCompleted(w, id)
        case Touched(id) => MarkStepAsTouched(w, id)
        case Changed(f, id) => OnStepChanged(w, f, id)
        case TouchAll => MarkAllStepsAsTouched(w);
      BookkeepingGrows(w1, events[1..]);
    }
  }

  /** Hence the first step stays visited whatever the user does. */
  lemma ProductStaysVisited(events: seq<Event>)
    ensures ProductId in Apply(Initial, events).visited
  {
    BookkeepingGrows(Initial, events);
  }

  /** A mandatory group's `*HasError`: touched and not valid. */
  predicate GroupHasError(w: Wizard, id: string, valid: bool) {
    id in w.touched && !valid
  }

  /** `criteriaGroupHasError`: the criteria status is not VALID and the step
      was touched or some criterion is selected. */
  predicate CriteriaGroupHasError(w: Wizard, groups: seq<CriteriaGroup>) {
    NewScenarioCriteria.PageCriteriaGroupStatus(groups) != Valid &&
    (CriteriaId in w.touched || NewScenarioCriteria.AnySelected(groups))
  }

  /** `isCriteriaStepCompleted`: visited, and either nothing selected or the
      criteria validation holds. */
  predicate IsCriteriaStepCompleted(w: Wizard, groups: seq<CriteriaGroup>) {
    CriteriaId in w.visited &&
    (NewScenarioCriteria.SelectedGroups(groups) == [] || NewScenarioCriteria.PageCriteriaValidation(groups))
  }

  /** A step descriptor with the flags the page sets. */
  function Step(id: string, title: string, optional: bool, completed: bool, hasError: bool): Stepper.StepConfig {
    Stepper.StepConfig(id, title, optional, false, completed, hasError, false)
  }

  /** `stepperConfig`: six steps in wizard order; the page never supplies a
      validity list. */
  function StepperConfig(w: Wizard, v: GroupValidity, groups: seq<CriteriaGroup>): (c: Stepper.StepperConfig)
    ensures |c.steps| == |StepIds|
    ensures forall i :: 0 <= i < |StepIds| ==> c.steps[i].id == StepIds[i]
    ensures c.stepValidations.None?
  {
    Stepper.StepperConfig("New Scenario", "HR Admin", [
      Step(ProductId, "Select Product", false, ProductId in w.visited && v.product, GroupHasError(w, ProductId, v.product)),
      Step(RespondentsId, "Total Respondents", false, RespondentsId in w.visited && v.respondents, GroupHasError(w, RespondentsId, v.respondents)),
      Step(CriteriaId, "Select Criteria", true, IsCriteriaStepCompleted(w, groups), CriteriaGroupHasError(w, groups)),
      Step(DriversId, "Set Impact Drivers", false, DriversId in w.visited && v.drivers, GroupHasError(w, DriversId, v.drivers)),
      Step(EnpsId, "eNPS", false, EnpsId in w.visited && v.enps, GroupHasError(w, EnpsId, v.enps)),
      Step(CommentsId, "Comments", true, CommentsId in w.visited, GroupHasError(w, CommentsId, v.comments))],
      None)
  }

  /** Each mandatory step is completed exactly when it is visited and its
      group is valid, and shows an error exactly when it is touched and
      invalid; only the criteria and comments steps are optional. */
  lemma MandatoryStepFlags(w: Wizard, v: GroupValidity, groups: seq<CriteriaGroup>)
    ensures var s := StepperConfig(w, v, groups).steps;
      (s[0].completed <==> ProductId in w.visited && v.product) &&
      (s[0].hasError <==> ProductId in w.touched && !v.product) &&
      (s[1].completed <==> RespondentsId in w.visited && v.respondents) &&
      (s[1].hasError <==> RespondentsId in w.touched && !v.respondents) &&
      (s[3].completed <==> DriversId in w.visited && v.drivers) &&
      (s[3].hasError <==> DriversId in w.touched && !v.drivers) &&
      (s[4].completed <==> EnpsId in w.visited && v.enps) &&
      (s[4].hasError <==> EnpsId in w.touched && !v.enps) &&
      (forall i :: 0 <= i < |s| ==> (s[i].optional <==> i == 2 || i == 5))
  {
  }

  /** The criteria step is completed once visited with nothing selected or
      with valid distributions; it shows an error exactly when its status
      is not VALID and it was touched or has a selection. The comments step
      is completed once visited. */
  lemma OptionalStepFlags(w: Wizard, v: GroupValidity, groups: seq<CriteriaGroup>)
    ensures var s := StepperConfig(w, v, groups).steps;
      (s[2].completed <==>
        (CriteriaId in w.visited &&
         (!NewScenarioCriteria.AnySelected(groups) || NewScenarioCriteria.PageCriteriaValidation(groups)))) &&
      (s[2].hasError <==>
        (NewScenarioCriteria.PageCriteriaGroupStatus(groups) != Valid &&
         (CriteriaId in w.touched || NewScenarioCriteria.AnySelected(groups)))) &&
      (s[5].completed <==> CommentsId in w.visited)
  {
    NewScenarioCriteria.SelectedGroupsEmpty(groups);
  }

  /** A visited criteria step whose status is VALID is completed and shows no
      error. */
  lemma ValidCriteriaStepIsClean(w: Wizard, v: GroupValidity, groups: seq<CriteriaGroup>)
    requires CriteriaId in w.visited
    requires NewScenarioCriteria.PageCriteriaGroupStatus(groups) == Valid
    ensures StepperConfig(w, v, groups).steps[2].completed
    ensures !StepperConfig(w, v, groups).steps[2].hasError
  {
    NewScenarioCriteria.StatusVersusValidation(groups);
    NewScenarioCriteria.SelectedGroupsEmpty(groups);
  }

  /** `canCompleteCurrentStep`: false past the last step, true on an
      optional step, otherwise the step's completed flag. */
  function CanCompleteCurrentStep(c: Stepper.StepperConfig, i: nat): (b: bool)
    ensures i >= |c.steps| ==> !b
    ensures i < |c.steps| && c.steps[i].optional ==> b
    ensures i < |c.steps| && !c.steps[i].optional ==> (b <==> c.steps[i].completed)
  {
    if i >= |c.steps| then false
    else if c.steps[i].optional then true
    else c.steps[i].completed
  }

  /** On the page the optional steps can always be completed, and a
      mandatory one exactly when it is visited and valid. */
  lemma CanCompleteOnPage(w: Wizard, v: GroupValidity, groups: seq<CriteriaGroup>)
    ensures CanCompleteCurrentStep(StepperConfig(w, v, groups), 2)
    ensures CanCompleteCurrentStep(StepperConfig(w, v, groups), 5)
    ensures CanCompleteCurrentStep(StepperConfig(w, v, groups), 0) <==> ProductId in w.visited && v.product
    ensures !CanCompleteCurrentStep(StepperConfig(w, v, groups), 6)
  {
  }

  /** Since the page supplies no validity list, the stepper's "next" never
      moves while any step can be selected directly. */
  lemma PageStepperNeverAdvancesWithNext(w: Wizard, v: GroupValidity, groups: seq<CriteriaGroup>, index: nat, target: int)
    ensures var s := Stepper.Stepper(index, 6, Some(StepperConfig(w, v, groups)));
      Stepper.GoToNextStep(s) == s && Stepper.CanNavigateToStep(s, target)
  {
    Stepper.NoValidationsBehaviour(Stepper.Stepper(index, 6, Some(StepperConfig(w, v, groups))), target);
  }
}
