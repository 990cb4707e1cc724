/**
 * The wizard's step-navigation guard (`Stepper`, a CdkStepper subclass).
 * The current index and the number of steps come from the CdkStepper base
 * class, whose setter is not part of this model: the index is a `nat`, and
 * every assignment requires an in-range target. Forward moves are gated by the
 * optional per-step validity list `stepValidations` of the configuration;
 * backward moves are never gated.
 */
module Stepper {
  import opened Common

  /** One step descriptor of the host's configuration (`StepConfig`); an
      absent optional flag is `false`. */
  datatype StepConfig = StepConfig(
    id: string,
    title: string,
    optional: bool,
    editable: bool,
    completed: bool,
    hasError: bool,
    disabled: bool)

  /** The host's configuration (`StepperConfig`) plus the validity list the
      stepper reads but the declared type does not list. */
  datatype StepperConfig = StepperConfig(
    title: string,
    role: string,
    steps: seq<StepConfig>,
    stepValidations: Option<seq<bool>>)

  /** The stepper: the base class's `selectedIndex` and `steps.length`, and
      the `stepperConfig` input, which may be unset. */
  datatype Stepper = Stepper(selectedIndex: nat, stepCount: nat, config: Option<StepperConfig>)

  /** The index always names a present step. */
  predicate InRange(s: Stepper) {
    s.selectedIndex < s.stepCount
  }

  /** `this.stepperConfig()?.stepValidations`. */
  function Validations(s: Stepper): Option<seq<bool>> {
    if s.config.Some? then s.config.value.stepValidations else None
  }

  /** Step `i` blocks forward movement past it: it has an entry in the
      validity list and that entry is false. Indices past the list never block. */
  predicate Blocks(v: seq<bool>, i: int) {
    0 <= i < |v| && !v[i]
  }

  /** The loop of `canNavigateToStep`: no index in `[i, t)` blocks. */
  function ClearFrom(v: seq<bool>, i: nat, t: int): (b: bool)
    ensures b <==> forall j :: i <= j < t ==> !Blocks(v, j)
    decreases t - i
  {
    if i >= t then true
    else if i < |v| && !v[i] then assert Blocks(v, i); false
    else ClearFrom(v, i + 1, t)
  }

  /** `canNavigateToNextStep`: the validity entry of the current step, and
      false when the list is absent or too short. */
  predicate CanNavigateToNextStep(s: Stepper) {
    var v := Validations(s);
    v.Some? && s.selectedIndex < |v.value| && v.value[s.selectedIndex]
  }

  /** The guard is exactly "the list exists and admits the current step". */
  lemma NextStepGuard(s: Stepper)
    ensures Validations(s).None? ==> !CanNavigateToNextStep(s)
    ensures Validations(s).Some? && s.selectedIndex >= |Validations(s).value| ==> !CanNavigateToNextStep(s)
    ensures CanNavigateToNextStep(s) <==> exists v :: Validations(s) == Some(v) && s.selectedIndex < |v| && !Blocks(v, s.selectedIndex)
  {
  }

  /** `canNavigateToStep`: backwards (and staying put) is always allowed;
      forwards is allowed unless a step in `[selectedIndex, target)` blocks. */
  function CanNavigateToStep(s: Stepper, target: int): (b: bool)
    ensures target <= s.selectedIndex ==> b
    ensures target > s.selectedIndex ==>
      (b <==> (Validations(s).None? ||
               forall i :: s.selectedIndex <= i < target ==> !Blocks(Validations(s).value, i)))
  {
    if target == s.selectedIndex then true
    else if target < s.selectedIndex then true
    else
      match Validations(s)
      case None => true
      case Some(v) => ClearFrom(v, s.selectedIndex, target)
  }

  /** Forward reachability is downward closed. */
  lemma ReachableDownwardClosed(s: Stepper, t: int, t': int)
    requires s.selectedIndex <= t' <= t
    requires CanNavigateToStep(s, t)
    ensures CanNavigateToStep(s, t')
  {
  }

  /** A forward target is blocked exactly when some step before it, from the
      current one on, has a false validity entry. */
  lemma ForwardBlockedIff(s: Stepper, t: int)
    requires t > s.selectedIndex
    ensures !CanNavigateToStep(s, t) <==>
      exists i :: s.selectedIndex <= i < t && Validations(s).Some? && Blocks(Validations(s).value, i)
  {
  }

  /** `selectStepByIndex`: moves exactly when `canNavigateToStep` allows it. */
  function SelectStepByIndex(s: Stepper, target: int): (s': Stepper)
    requires CanNavigateToStep(s, target) ==> 0 <= target < s.stepCount
    ensures s'.stepCount == s.stepCount && s'.config == s.config
    ensures s'.selectedIndex == target || s' == s
    ensures target <= s.selectedIndex ==> s'.selectedIndex == target
    ensures s'.selectedIndex > s.selectedIndex ==>
      Validations(s).None? || forall i :: s.selectedIndex <= i < s'.selectedIndex ==> !Blocks(Validations(s).value, i)
    ensures s'.selectedIndex != target ==>
      Validations(s).Some? && exists i :: s.selectedIndex <= i < target && Blocks(Validations(s).value, i)
    ensures (target > s.selectedIndex && Validations(s).Some? &&
             exists i :: s.selectedIndex <= i < target && Blocks(Validations(s).value, i)) ==> s' == s
  {
    if CanNavigateToStep(s, target) then s.(selectedIndex := target) else s
  }

  /** `goToNextStep`: one step forward when not on the last step and the
      current step's validity entry allows it; otherwise nothing changes. */
  function GoToNextStep(s: Stepper): (s': Stepper)
    ensures s'.stepCount == s.stepCount && s'.config == s.config
    ensures s'.selectedIndex == s.selectedIndex + 1 || s' == s
    ensures s'.selectedIndex == s.selectedIndex + 1 <==>
      s.selectedIndex + 1 < s.stepCount && CanNavigateToNextStep(s)
    ensures InRange(s) ==> InRange(s')
    ensures s.selectedIndex + 1 == s.stepCount ==> s' == s
  {
    if s.selectedIndex < s.stepCount - 1 && CanNavigateToNextStep(s) then
      s.(selectedIndex := s.selectedIndex + 1)
    else s
  }

  /** `goToPreviousStep`: one step back unless already on the first step. */
  function GoToPreviousStep(s: Stepper): (s': Stepper)
    ensures s'.stepCount == s.stepCount && s'.config == s.config
    ensures s.selectedIndex > 0 ==> s'.selectedIndex + 1 == s.selectedIndex
    ensures s.selectedIndex == 0 ==> s' == s
    ensures InRange(s) ==> InRange(s')
  {
    if s.selectedIndex > 0 then s.(selectedIndex := s.selectedIndex - 1) else s
  }

  /** `canGoNext` getter: not on the last step. */
  predicate CanGoNext(s: Stepper) {
    s.selectedIndex < s.stepCount - 1
  }

  /** `canGoPrevious` getter: not on the first step. */
  predicate CanGoPrevious(s: Stepper) {
    s.selectedIndex > 0
  }

  /** `isLastStep` getter. */
  predicate IsLastStep(s: Stepper) {
    s.selectedIndex == s.stepCount - 1
  }

  /** `isFirstStep` getter. */
  predicate IsFirstStep(s: Stepper) {
    s.selectedIndex == 0
  }

  /** On a non-empty stepper exactly one of `canGoNext` and `isLastStep`
      holds, and `canGoPrevious` is the negation of `isFirstStep`. */
  lemma GettersPartition(s: Stepper)
    requires InRange(s)
    ensures CanGoNext(s) != IsLastStep(s)
    ensures CanGoPrevious(s) != IsFirstStep(s)
  {
  }

  /** `isStepDisabled`. */
  predicate IsStepDisabled(s: Stepper, i: int) {
    !CanNavigateToStep(s, i)
  }

  /** The four visual classes of `getStepClasses`. */
  datatype StepClass = BeforeCurrent | Current | Disabled | Navigable

  /** `getStepClasses`: before-current, then current, then disabled, then
      navigable. */
  function GetStepClasses(s: Stepper, i: int): (c: StepClass)
    ensures c == BeforeCurrent <==> i < s.selectedIndex
    ensures c == Current <==> i == s.selectedIndex
    ensures c == Disabled <==> IsStepDisabled(s, i)
    ensures c == Navigable <==> i > s.selectedIndex && !IsStepDisabled(s, i)
  {
    if i < s.selectedIndex then BeforeCurrent
    else if i == s.selectedIndex then Current
    else if IsStepDisabled(s, i) then Disabled
    else Navigable
  }

  /** Without a validity list the stepper never advances with "next" but any
      in-range step can be selected directly. */
  lemma NoValidationsBehaviour(s: Stepper, t: int)
    requires Validations(s).None?
    ensures GoToNextStep(s) == s
    ensures CanNavigateToStep(s, t)
  {
  }

  /** Scenario: from step 0 with validity [true, false, ...], "next" reaches
      step 1 and a second "next" stays there. */
  lemma NextTwiceScenario(cfg: StepperConfig)
    requires cfg.stepValidations == Some([true, false, true])
    ensures GoToNextStep(Stepper(0, 3, Some(cfg))).selectedIndex == 1
    ensures GoToNextStep(GoToNextStep(Stepper(0, 3, Some(cfg)))).selectedIndex == 1
  {
  }
}
