/**
 * `SimpleStepperComponent`: a self-contained five-step stepper over a
 * current-step counter. Its steps are the projected `step-content` templates,
 * sorted by their step number and cut to five when content is initialised.
 */
module SimpleStepper {
  import opened Common

  /** One projected step template (`StepContentDirective`). */
  datatype StepContent = StepContent(stepNumber: int, stepTitle: string)

  /** The component state: the `_currentStep` and `_steps` signals. */
  datatype SimpleStepper = SimpleStepper(currentStep: int, steps: seq<StepContent>)

  /** The state right after construction: step 0, no steps yet. */
  const Initial := SimpleStepper(0, [])

  /** Maximum number of steps kept by `ngAfterContentInit`. */
  const MaxSteps := 5

  /** `totalSteps`. */
  function TotalSteps(s: SimpleStepper): nat {
    |s.steps|
  }

  /** Ascending by step number. */
  ghost predicate SortedByNumber(xs: seq<StepContent>) {
    forall i, j :: 0 <= i < j < |xs| ==> xs[i].stepNumber <= xs[j].stepNumber
  }

  /** Inserts `x` into a sorted list before the first element whose number
      is not smaller than its own. */
  function Insert(x: StepContent, xs: seq<StepContent>): (r: seq<StepContent>)
    requires SortedByNumber(xs)
    ensures |r| == |xs| + 1
    ensures SortedByNumber(r)
    ensures forall k :: 0 <= k < |r| ==> r[k] == x || r[k] in xs
  {
    if xs == [] then [x]
    else if x.stepNumber <= xs[0].stepNumber then [x] + xs
    else
      var rest := Insert(x, xs[1..]);
      assert xs == [xs[0]] + xs[1..];
      SortedCons(xs[0], rest);
      [xs[0]] + rest
  }

  /** Insertion adds exactly `x` to the multiset of elements. */
  lemma {:induction false} InsertPermutes(x: StepContent, xs: seq<StepContent>)
    requires SortedByNumber(xs)
    ensures multiset(Insert(x, xs)) == multiset(xs) + multiset{x}
  {
    if xs != [] && x.stepNumber > xs[0].stepNumber {
      assert xs == [xs[0]] + xs[1..];
      InsertPermutes(x, xs[1..]);
    }
  }

  /** A sorted list stays sorted under a head no larger than its elements. */
  lemma SortedCons(h: StepContent, rest: seq<StepContent>)
    requires SortedByNumber(rest)
    requires forall k :: 0 <= k < |rest| ==> h.stepNumber <= rest[k].stepNumber
    ensures SortedByNumber([h] + rest)
  {
  }

  /** Sorts by step number; equal numbers keep their input order. */
  function SortByNumber(xs: seq<StepContent>): (r: seq<StepContent>)
    ensures SortedByNumber(r)
    ensures multiset(r) == multiset(xs)
    ensures |r| == |xs|
  {
    if xs == [] then []
    else
      assert xs == [xs[0]] + xs[1..];
      InsertPermutes(xs[0], SortByNumber(xs[1..]));
      Insert(xs[0], SortByNumber(xs[1..]))
  }

  /** The elements of `xs` numbered `v`, in their order in `xs`. */
  function WithNumber(xs: seq<StepContent>, v: int): (r: seq<StepContent>)
    ensures forall k :: 0 <= k < |r| ==> r[k].stepNumber == v
  {
    if xs == [] then []
    else (if xs[0].stepNumber == v then [xs[0]] else []) + WithNumber(xs[1..], v)
  }

  /** Filtering a list with a known head. */
  lemma WithNumberCons(h: StepContent, rest: seq<StepContent>, v: int)
    ensures WithNumber([h] + rest, v) == (if h.stepNumber == v then [h] else []) + WithNumber(rest, v)
  {
    assert ([h] + rest)[0] == h && ([h] + rest)[1..] == rest;
  }

  /** Insertion places `x` before every element numbered like it. */
  lemma {:induction false} InsertWithNumber(x: StepContent, xs: seq<StepContent>, v: int)
    requires SortedByNumber(xs)
    ensures WithNumber(Insert(x, xs), v) == (if x.stepNumber == v then [x] else []) + WithNumber(xs, v)
  {
    if xs == [] {
      assert Insert(x, xs) == [x] + xs;
      WithNumberCons(x, xs, v);
    } else if x.stepNumber <= xs[0].stepNumber {
      assert Insert(x, xs) == [x] + xs;
      WithNumberCons(x, xs, v);
    } else {
      var tail := xs[1..];
      var rest := Insert(x, tail);
      assert Insert(x, xs) == [xs[0]] + rest;
      assert xs == [xs[0]] + tail;
      InsertWithNumber(x, tail, v);
      PassHead(x, xs[0], tail, rest, v);
    }
  }

  /** Moving `x` past a head with a smaller number does not reorder the
      elements numbered `v`. */
  lemma PassHead(x: StepContent, h: StepContent, tail: seq<StepContent>, rest: seq<StepContent>, v: int)
    requires h.stepNumber < x.stepNumber
    requires WithNumber(rest, v) == (if x.stepNumber == v then [x] else []) + WithNumber(tail, v)
    ensures WithNumber([h] + rest, v) == (if x.stepNumber == v then [x] else []) + WithNumber([h] + tail, v)
  {
    WithNumberCons(h, rest, v);
    WithNumberCons(h, tail, v);
    if h.stepNumber == v {
      assert x.stepNumber != v;
    }
  }

  /** The sort is stable: for every step number, the elements carrying it
      appear in the result in the order they had in the input. */
  lemma {:induction false} SortByNumberStable(xs: seq<StepContent>, v: int)
    ensures WithNumber(SortByNumber(xs), v) == WithNumber(xs, v)
  {
    if xs != [] {
      SortByNumberStable(xs[1..], v);
      InsertWithNumber(xs[0], SortByNumber(xs[1..]), v);
    }
  }

  /** `ngAfterContentInit`: the steps become the content list sorted by step
      number and cut to its first five; the current step is untouched. */
  function AfterContentInit(s: SimpleStepper, contents: seq<StepContent>): (s': SimpleStepper)
    ensures s'.currentStep == s.currentStep
    ensures SortedByNumber(s'.steps)
    ensures |s'.steps| == if |contents| < MaxSteps then |contents| else MaxSteps
    ensures multiset(s'.steps) <= multiset(contents)
    ensures forall k :: 0 <= k < |s'.steps| ==> s'.steps[k] in contents
    ensures |contents| <= MaxSteps ==> multiset(s'.steps) == multiset(contents)
    ensures forall k, c :: 0 <= k < |s'.steps| && c in multiset(contents) - multiset(s'.steps) ==>
      s'.steps[k].stepNumber <= c.stepNumber
  {
    var sorted := SortByNumber(contents);
    var n := if |sorted| < MaxSteps then |sorted| else MaxSteps;
    SortedPrefix(sorted, contents, n);
    assert n == |sorted| ==> sorted[..n] == sorted;
    s.(steps := sorted[..n])
  }

  /** A prefix of a sorted permutation of `contents` is sorted and drawn from
      `contents`. */
  lemma SortedPrefix(sorted: seq<StepContent>, contents: seq<StepContent>, n: nat)
    requires SortedByNumber(sorted) && multiset(sorted) == multiset(contents)
    requires n <= |sorted|
    ensures SortedByNumber(sorted[..n])
    ensures multiset(sorted[..n]) <= multiset(contents)
    ensures forall k :: 0 <= k < n ==> sorted[..n][k] in contents
    ensures forall k, c :: 0 <= k < n && c in multiset(contents) - multiset(sorted[..n]) ==>
      sorted[..n][k].stepNumber <= c.stepNumber
  {
    assert sorted == sorted[..n] + sorted[n..];
    assert multiset(sorted) == multiset(sorted[..n]) + multiset(sorted[n..]);
    forall k | 0 <= k < n ensures sorted[..n][k] in contents {
      assert sorted[..n][k] in multiset(sorted[..n]);
      assert sorted[..n][k] in multiset(contents);
    }
    PrefixSmallest(sorted[..n], sorted[n..]);
  }

  /** In a sorted list split in two, every element of the front numbers no
      higher than any element of the back. */
  lemma PrefixSmallest(front: seq<StepContent>, back: seq<StepContent>)
    requires SortedByNumber(front + back)
    ensures forall k, c :: 0 <= k < |front| && c in multiset(back) ==> front[k].stepNumber <= c.stepNumber
  {
    var all := front + back;
    forall k, c | 0 <= k < |front| && c in multiset(back)
      ensures front[k].stepNumber <= c.stepNumber
    {
      assert c in back;
      var j :| 0 <= j < |back| && back[j] == c;
      assert all[k] == front[k] && all[|front| + j] == c;
    }
  }

  /** `canGoPrevious`. */
  predicate CanGoPrevious(s: SimpleStepper) {
    s.currentStep > 0
  }

  /** `canGoNext`. */
  predicate CanGoNext(s: SimpleStepper) {
    s.currentStep < TotalSteps(s) - 1
  }

  /** `isLastStep`. */
  predicate IsLastStep(s: SimpleStepper) {
    s.currentStep == TotalSteps(s) - 1
  }

  /** `canGoNext` and `isLastStep` never hold together. */
  lemma NextAndLastExclusive(s: SimpleStepper)
    ensures !(CanGoNext(s) && IsLastStep(s))
    ensures 0 <= s.currentStep < TotalSteps(s) ==> CanGoNext(s) != IsLastStep(s)
  {
  }

  /** `currentStepContent`: the current step's template, or null when the
      counter names no step. */
  function CurrentStepContent(s: SimpleStepper): (r: Option<StepContent>)
    ensures r.Some? <==> 0 <= s.currentStep < TotalSteps(s)
    ensures r.Some? ==> r.value == s.steps[s.currentStep] && r.value in s.steps
  {
    if 0 <= s.currentStep < |s.steps| then Some(s.steps[s.currentStep]) else None
  }

  /** `next`: one step forward unless on (or past) the last step. */
  function Next(s: SimpleStepper): (s': SimpleStepper)
    ensures s'.steps == s.steps
    ensures CanGoNext(s) ==> s'.currentStep == s.currentStep + 1
    ensures !CanGoNext(s) ==> s' == s
  {
    if CanGoNext(s) then s.(currentStep := s.currentStep + 1) else s
  }

  /** `previous`: one step back unless on the first step. */
  function Previous(s: SimpleStepper): (s': SimpleStepper)
    ensures s'.steps == s.steps
    ensures CanGoPrevious(s) ==> s'.currentStep == s.currentStep - 1
    ensures !CanGoPrevious(s) ==> s' == s
  {
    if CanGoPrevious(s) then s.(currentStep := s.currentStep - 1) else s
  }

  /** `goToStep`: jumps only to an existing step. */
  function GoToStep(s: SimpleStepper, k: int): (s': SimpleStepper)
    ensures s'.steps == s.steps
    ensures 0 <= k < TotalSteps(s) ==> s'.currentStep == k
    ensures !(0 <= k < TotalSteps(s)) ==> s' == s
  {
    if 0 <= k < |s.steps| then s.(currentStep := k) else s
  }

  /** A user action on the stepper. */
  datatype Action = NextAction | PreviousAction | GoTo(k: int)

  /** The state after a sequence of actions, applied left to right. */
  function Run(s: SimpleStepper, actions: seq<Action>): SimpleStepper
    decreases |actions|
  {
    if actions == [] then s
    else
      var s1 := match actions[0]
        case NextAction => Next(s)
        case PreviousAction => Previous(s)
        case GoTo(k) => GoToStep(s, k);
      Run(s1, actions[1..])
  }

  /** From any in-range state, every sequence of actions keeps the counter in
      `[0, totalSteps)` and leaves the steps alone. */
  lemma {:induction false} RunStaysInRange(s: SimpleStepper, actions: seq<Action>)
    requires 0 <= s.currentStep < TotalSteps(s)
    ensures 0 <= Run(s, actions).currentStep < TotalSteps(s)
    ensures Run(s, actions).steps == s.steps
    decreases |actions|
  {
    if actions != [] {
      var s1 := match actions[0]
        case NextAction => Next(s)
        case PreviousAction => Previous(s)
        case GoTo(k) => GoToStep(s, k);
      RunStaysInRange(s1, actions[1..]);
    }
  }

  /** After content initialisation with at least one step, the initial
      counter 0 is in range, so every run from there stays in range. */
  lemma InitialRunsStayInRange(contents: seq<StepContent>, actions: seq<Action>)
    requires |contents| >= 1
    ensures 0 <= Run(AfterContentInit(Initial, contents), actions).currentStep
              < TotalSteps(AfterContentInit(Initial, contents))
  {
    RunStaysInRange(AfterContentInit(Initial, contents), actions);
  }

  /** Circle style of `getStepClasses`. */
  datatype CircleClass = CompletedCircle | CurrentCircle | FutureCircle

  /** Label style of `getStepTextClasses`. */
  datatype TextClass = ActiveText | InactiveText

  /** Connector style of `getConnectorClasses`. */
  datatype ConnectorClass = DoneConnector | PendingConnector

  /** `getStepClasses`: completed before the current step, current at it,
      future after it. */
  function GetStepClasses(s: SimpleStepper, i: int): (c: CircleClass)
    ensures c == CompletedCircle <==> i < s.currentStep
    ensures c == CurrentCircle <==> i == s.currentStep
    ensures c == FutureCircle <==> i > s.currentStep
  {
    if i < s.currentStep then CompletedCircle
    else if i == s.currentStep then CurrentCircle
    else FutureCircle
  }

  /** `getStepTextClasses`: active up to and including the current step. */
  function GetStepTextClasses(s: SimpleStepper, i: int): (c: TextClass)
    ensures c == ActiveText <==> GetStepClasses(s, i) != FutureCircle
  {
    if i <= s.currentStep then ActiveText else InactiveText
  }

  /** `getConnectorClasses`: done exactly for completed steps. */
  function GetConnectorClasses(s: SimpleStepper, i: int): (c: ConnectorClass)
    ensures c == DoneConnector <==> GetStepClasses(s, i) == CompletedCircle
  {
    if i < s.currentStep then DoneConnector else PendingConnector
  }
}
