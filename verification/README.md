# zenithr-fe wizard logic in Dafny

This project models the in-memory logic behind the "New Scenario" wizard of the
zenithr-fe Angular application, and proves properties of that model. The model covers four areas:

- **Step navigation.** The CDK-based `Stepper` gates forward moves on a per-step validity
  list. `SimpleStepperComponent` keeps a current index over at most five sorted steps.
- **Criteria distribution.** Demographic criteria (gender, generation, department, location,
  age group) can be selected. Each selected criterion gets rows of id and percentage.
  The rows are edited in three places: the `CriteriaDistribution` component, `CriteriaService`
  and the `NewScenario` page. Duplicates are detected there and by the
  `duplicateDistributionValueValidator`. A VALID/INVALID status, a completion flag and the
  2-decimal mean of the filled percentages are derived from the rows.
- **Survey selection and pagination.** `SurveyService` and the `ProductStep` component hold
  integer page arithmetic, slice windows, per-survey toggles and per-page select/deselect.
- **Field and total validation.** `FormValidationService` covers the percentage range check,
  error-message priority, camelCase-to-words field names, form-group emptiness and step status.
  It also computes the "mean of the positive fields" totals of the impact-driver and eNPS steps.

Modules follow the source units:

- `Common`: whitespace and `trim`, blank ids, distinctness, JavaScript `slice`.
- `Averages`: the mean of positive values, rounded to 2 decimals.
- `Stepper`, `SimpleStepper`.
- `Criteria`: the shared criteria data model and group operations.
- `CriteriaDistribution`: the component.
- `CriteriaService`.
- `CustomValidators`.
- `NewScenarioCriteria`: the page's criteria state, kept as groups plus a form array of controls.
- `NewScenarioSteps`: the page's step bookkeeping and `stepperConfig`.
- `Surveys`: the service, the product step and the page's survey code, which repeats the product step.
- `FormValidation`.

Form arrays are plain sequences of records. Signals, change detection and Angular's
validators are not modelled: the validity of a form group is a boolean parameter.
Percentages are integers, with `None` standing for `null`. Means are exact reals, rounded as
`Floor(100x + 1/2) / 100`, which is JavaScript's `Math.round(x * 100) / 100` without
floating-point error.

Where the code and its documentation or tests disagree, the model follows the code.

- The stepper reads `stepValidations` from its config (`stepper.ts:31`). The config type
  does not declare that field, and the page never supplies it. In the page's wizard,
  "next" therefore never moves, and every step can be selected directly. This is proved as
  `NewScenarioSteps.PageStepperNeverAdvancesWithNext`.
- The component's `addDistributionItem` skips the duplicate check only for the empty id, by
  JavaScript truthiness, not for blank ids. The model does the same.

## Model

| member | source | states |
|---|---|---|
| Stepper.CanNavigateToStep | src/app/components/stepper/stepper.ts:38-57 | a target at or before the current index is always reachable; a later target is reachable iff the list is absent or no index in [current, target) inside the list holds false |
| Stepper.ClearFrom | src/app/components/stepper/stepper.ts:48-54 | the scan loop succeeds iff no index in the range is blocked by a false entry of the validity list |
| Stepper.ForwardBlockedIff | src/app/components/stepper/stepper.ts:47-56 | a forward target is refused exactly when a list exists and some index in [current, target) inside it holds false; indices past the list never block |
| Stepper.ReachableDownwardClosed | src/app/components/stepper/stepper.ts:49-53 | if a forward target is reachable, so is every index between the current one and it |
| Stepper.NextStepGuard | src/app/components/stepper/stepper.ts:30-36 | `canNavigateToNextStep` is the list's entry at the current index when the list exists and covers it, and false otherwise, including when the list is absent |
| Stepper.SelectStepByIndex | src/app/components/stepper/stepper.ts:18-22 | the index becomes the target exactly when the target is reachable; otherwise nothing changes; a forward jump only crosses unblocked steps |
| Stepper.GoToNextStep | src/app/components/stepper/stepper.ts:24-28 | advances by exactly one iff not on the last step and the current step's validity is true; never passes the last step |
| Stepper.GoToPreviousStep | src/app/components/stepper/stepper.ts:59-63 | decrements iff the index is positive, so it never goes below 0 |
| Stepper.GettersPartition | src/app/components/stepper/stepper.ts:65-97 | on an in-range index, exactly one of `canGoNext` and `isLastStep` holds, and exactly one of `canGoPrevious` and `isFirstStep` |
| Stepper.GetStepClasses | src/app/components/stepper/stepper.ts:77-93 | the class is "before current", "current", "disabled" or "navigable", in that priority; "disabled" coincides with `isStepDisabled` |
| Stepper.NoValidationsBehaviour | src/app/components/stepper/stepper.ts:24-57 | without a validity list, "next" never moves and every target can be selected |
| Stepper.NextTwiceScenario | src/app/components/stepper/stepper.ts:24-36 | with validities [true, false, true], "next" moves from 0 to 1 and then stays at 1 |
| SimpleStepper.Insert | src/app/components/simple-stepper/simple-stepper.component.ts:147-148 | inserting into a list sorted by step number keeps it sorted, one longer, with no new element besides the inserted one |
| SimpleStepper.InsertPermutes | src/app/components/simple-stepper/simple-stepper.component.ts:147-148 | insertion adds exactly the inserted step to the multiset of steps |
| SimpleStepper.SortByNumber | src/app/components/simple-stepper/simple-stepper.component.ts:147-148 | the result is sorted ascending by step number and is a permutation of the input |
| SimpleStepper.InsertWithNumber | src/app/components/simple-stepper/simple-stepper.component.ts:147-148 | inserting a step puts it ahead of every step with the same number |
| SimpleStepper.SortByNumberStable | src/app/components/simple-stepper/simple-stepper.component.ts:147-148 | the sort is stable: for every step number, the steps carrying it keep their input order, as `Array.prototype.sort` does |
| SimpleStepper.AfterContentInit | src/app/components/simple-stepper/simple-stepper.component.ts:145-152 | the steps become sorted, at most five, each taken from the content list (a sub-multiset of it), all of them when there are at most five; every kept step numbers no higher than any step left out; the current index is untouched |
| SimpleStepper.NextAndLastExclusive | src/app/components/simple-stepper/simple-stepper.component.ts:136-137 | `canGoNext` and `isLastStep` never hold together, and on an in-range index exactly one holds |
| SimpleStepper.CurrentStepContent | src/app/components/simple-stepper/simple-stepper.component.ts:139-143 | the current step's content when the index is in range, null otherwise |
| SimpleStepper.Next | src/app/components/simple-stepper/simple-stepper.component.ts:154-158 | increments iff the current step is before the last, otherwise no change |
| SimpleStepper.Previous | src/app/components/simple-stepper/simple-stepper.component.ts:160-164 | decrements iff the current step is positive, otherwise no change |
| SimpleStepper.GoToStep | src/app/components/simple-stepper/simple-stepper.component.ts:166-170 | moves to k iff 0 <= k < totalSteps, otherwise no change |
| SimpleStepper.RunStaysInRange | src/app/components/simple-stepper/simple-stepper.component.ts:154-170 | from an in-range index, any sequence of next/previous/goToStep keeps the index in [0, totalSteps) and the steps unchanged |
| SimpleStepper.InitialRunsStayInRange | src/app/components/simple-stepper/simple-stepper.component.ts:128-170 | starting at 0 after content init with at least one step, the index stays in range under any sequence of moves |
| SimpleStepper.GetStepClasses | src/app/components/simple-stepper/simple-stepper.component.ts:177-190 | completed iff index < current, current iff equal, future iff greater |
| SimpleStepper.GetStepTextClasses | src/app/components/simple-stepper/simple-stepper.component.ts:192-200 | active text exactly for indices at or before the current one |
| SimpleStepper.GetConnectorClasses | src/app/components/simple-stepper/simple-stepper.component.ts:202-210 | a done connector exactly for indices before the current one |
| Common.BlankIffTrimEmpty | src/app/components/criteria-distribution/criteria-distribution.ts:47 | the blank test `trim() === ''` holds exactly for strings made only of white space |
| Common.Trim | src/app/core/services/form-validation.service.ts:258 | trimming never lengthens a string and leaves no white space at either end |
| Common.RepeatIffNotDistinct | src/app/core/services/criteria.service.ts:117 | "length differs from the size of its Set" holds exactly when some element occurs twice |
| Common.JsSlice | src/app/core/services/survey.service.ts:37 | JavaScript `slice` on in-range bounds is the ordinary sub-sequence, clipped at the end, empty when the end is not after the start |
| Averages.Positives | src/app/components/impact-driver-step/impact-driver-step.ts:25 | keeps every positive value as often as it occurs and nothing else |
| Averages.PositivesEmpty | src/app/components/impact-driver-step/impact-driver-step.ts:25-26 | no value is kept exactly when none is positive |
| Averages.Round2 | src/app/components/impact-driver-step/impact-driver-step.ts:27 | the rounded value is within half a hundredth of the input and has at most two decimals |
| Averages.Round2Whole | src/app/components/impact-driver-step/impact-driver-step.ts:27 | whole numbers are unchanged by rounding |
| Averages.Round2Monotone | src/app/components/impact-driver-step/impact-driver-step.ts:27 | rounding preserves order |
| Averages.MeanOfPositives | src/app/components/criteria-distribution/criteria-distribution.ts:161-171 | the rounded mean of the positive values is never negative and is 0 exactly when no value is positive |
| Averages.MeanWithin | src/app/core/services/form-validation.service.ts:41-47 | when the positive values lie in [lo, hi], so does their rounded mean |
| Averages.MeanExamples | src/app/components/criteria-distribution/criteria-distribution.ts:161-171 | 60 and 40 average to 50; an unfilled 0 beside 75 gives 75, since only positive values count |
| Averages.NonPositiveIgnored | src/app/components/impact-driver-step/impact-driver-step.ts:16-25 | adding a non-positive value changes neither the sum nor the count |
| Criteria.CriteriaName | src/app/components/criteria-distribution/criteria-distribution.ts:152-155 | the name is the table's name for the type, or the type key when the table has none; never empty |
| Criteria.CriteriaNames | src/app/core/data/scenario-options.ts:20-26 | the five display names of the available criteria |
| Criteria.FindGroup | src/app/components/criteria-distribution/criteria-distribution.ts:94 | `findIndex`: the first group of the type, or none when no group has it |
| Criteria.SelectedTypes | src/app/components/criteria-distribution/criteria-distribution.ts:23-26 | a type is listed iff some selected group has it |
| Criteria.EntriesOfType | src/app/components/criteria-distribution/criteria-distribution.ts:145-150 | the rows of the type, in form-array order |
| Criteria.EntriesOfTypeMembers | src/app/components/criteria-distribution/criteria-distribution.ts:145-150 | a row is kept iff it is in the array and has the type |
| Criteria.EntriesOfTypeAppend | src/app/components/criteria-distribution/criteria-distribution.ts:145-150 | filtering distributes over concatenation |
| Criteria.NonBlankCounts | src/app/components/criteria-distribution/criteria-distribution.ts:175-177 | each non-blank id is kept as often as it occurs; blank ids are dropped |
| Criteria.DuplicatesIff | src/app/components/criteria-distribution/criteria-distribution.ts:173-180 | `hasDuplicatesInType` holds iff some non-blank id occurs twice among the type's rows |
| Criteria.IdCountOfType | src/app/components/criteria-distribution/criteria-distribution.ts:145-150 | an id occurs no more often among one type's rows than in the whole array |
| Criteria.UniqueIdsNoDuplicates | src/app/components/criteria-distribution/criteria-distribution.ts:131-136 | when ids are unique across the array, no type has duplicates |
| Criteria.TotalPercentageForType | src/app/components/criteria-distribution/criteria-distribution.ts:161-171 | the type's total is never negative and is 0 exactly when none of its rows has a positive percentage |
| Criteria.TotalPercentageAtMost100 | src/app/components/criteria-distribution/criteria-distribution.ts:161-171 | when every percentage is at most 100, so is the total |
| Criteria.ItemsTotal | src/app/components/criteria-distribution/criteria-distribution.ts:290-297 | the group total is never negative and is 0 exactly when no item has a positive percentage |
| Criteria.UpdateCriteriaTotalPercentage | src/app/components/criteria-distribution/criteria-distribution.ts:286-301 | only the matching group's total changes, to the mean of its items; with no matching group nothing changes |
| Criteria.ToggleGroups | src/app/components/criteria-distribution/criteria-distribution.ts:92-115 | an absent type is appended, selected, with no items and total 0; a present one flips `selected`, and turning it off empties its items and zeroes its total; other groups are unchanged |
| Criteria.TogglePreservesInvariants | src/app/components/criteria-distribution/criteria-distribution.ts:92-115 | toggling keeps group types unique and unselected groups empty |
| Criteria.ToggleFlipsSelection | src/app/components/criteria-distribution/criteria-distribution.ts:303-305 | after a toggle, `isCriterionSelected` for the type is the negation of what it was |
| Criteria.ToggleKeepsOthers | src/app/components/criteria-distribution/criteria-distribution.ts:92-115 | toggling one type does not change whether any other type is selected |
| CriteriaDistribution.WithoutTypeByType | src/app/components/criteria-distribution/criteria-distribution.ts:351-365 | clearing a type leaves no row of that type and every other type's rows as they were |
| CriteriaDistribution.ClearCriteriaFromFormArray | src/app/components/criteria-distribution/criteria-distribution.ts:351-365 | the backward removal loop leaves exactly the rows of other types, in order |
| CriteriaDistribution.ToggleCriterion | src/app/components/criteria-distribution/criteria-distribution.ts:92-118 | the groups toggle as above and other types' rows never change; when group types are unique, turning a type on leaves the rows alone and turning it off removes all its rows |
| CriteriaDistribution.ToggleSelectionByGroup | src/app/components/criteria-distribution/criteria-distribution.ts:94-113 | when group types are unique, after a toggle the type is selected iff it had no group or its group was unselected |
| CriteriaDistribution.AddDistributionItem | src/app/components/criteria-distribution/criteria-distribution.ts:128-143 | nothing changes iff the id is non-empty and some row of any type already has it; otherwise exactly one row (type, id, null) is appended |
| CriteriaDistribution.AddPreservesUniqueIds | src/app/components/criteria-distribution/criteria-distribution.ts:131-139 | adding keeps non-empty ids unique across the array |
| CriteriaDistribution.AddIdempotent | src/app/components/criteria-distribution/criteria-distribution.ts:131-135 | adding the same non-empty id again, under any type, changes nothing |
| CriteriaDistribution.AddAllKeepsUniqueIds | src/app/components/criteria-distribution/criteria-distribution.ts:128-143 | any sequence of adds keeps non-empty ids unique |
| CriteriaDistribution.AddsNeverDuplicate | src/app/components/criteria-distribution/criteria-distribution.ts:173-180 | from an empty array, adds alone never make `hasDuplicatesInType` true |
| CriteriaDistribution.AddMaleTwice | src/app/components/criteria-distribution/criteria-distribution.spec.ts:130-138 | adding "male" twice leaves a single row |
| CriteriaDistribution.RemoveKthOwnType | src/app/components/criteria-distribution/criteria-distribution.ts:183-191 | removing the k-th row of a type removes exactly the k-th element of that type's rows |
| CriteriaDistribution.RemoveKthOtherTypes | src/app/components/criteria-distribution/criteria-distribution.ts:183-191 | removing a row of one type leaves every other type's rows unchanged |
| CriteriaDistribution.RemoveKthAtPosition | src/app/components/criteria-distribution/criteria-distribution.ts:186-191 | the removal deletes one form-array position holding a row of the type and keeps the rest in order |
| CriteriaDistribution.RemoveDistributionItem | src/app/components/criteria-distribution/criteria-distribution.ts:182-196 | a negative or too-large index changes nothing; otherwise exactly the k-th row of the type is removed, at one array position, the others kept in order |
| CriteriaDistribution.RemoveKeepsOtherTypes | src/app/components/criteria-distribution/criteria-distribution.ts:182-196 | for any index, other types' rows are unchanged |
| CriteriaDistribution.FirstWithId | src/app/components/criteria-distribution/criteria-distribution.ts:200-202 | `find` by id: the first row with the id, or none when no row has it |
| CriteriaDistribution.UpdateDistributionPercentage | src/app/components/criteria-distribution/criteria-distribution.ts:198-215 | only the first row with the id gets the new percentage; ids, types and all other rows are unchanged; an unknown id changes nothing |
| CriteriaDistribution.UpdateKeepsDuplicates | src/app/components/criteria-distribution/criteria-distribution.ts:198-215 | editing a percentage never changes any type's duplicate status |
| CriteriaDistribution.StatusFrom | src/app/components/criteria-distribution/criteria-distribution.ts:36-59 | the loop over selected types returns VALID iff every remaining type has rows, all complete, and no duplicates |
| CriteriaDistribution.CriteriaGroupStatus | src/app/components/criteria-distribution/criteria-distribution.ts:29-62 | VALID iff every selected type has rows, each with a non-blank id and a positive percentage, and no duplicate ids; in particular VALID when nothing is selected |
| CriteriaDistribution.SelectedTypesAreSelected | src/app/components/criteria-distribution/criteria-distribution.ts:23-26 | the selected-types list names exactly the types `isCriterionSelected` accepts |
| CriteriaDistribution.CriteriaValidation | src/app/components/criteria-distribution/criteria-distribution.ts:64-90 | true iff the array is non-empty and every row has a non-blank id and a positive percentage; no duplicate check |
| CriteriaDistribution.ValidationIff | src/app/components/criteria-distribution/criteria-distribution.ts:65-89 | the per-type loop over the set of row types agrees with "non-empty and every row complete" |
| CriteriaDistribution.ValidationIgnoresDuplicates | src/app/components/criteria-distribution/criteria-distribution.ts:29-90 | two complete "male" rows pass `criteriaValidation` while the status is INVALID |
| CriteriaService.InitialGroups | src/app/core/services/criteria.service.ts:28-36 | one unselected group per available criterion, in table order, with its name, no items and total 0 |
| CriteriaService.InitialGroupsShape | src/app/core/services/criteria.service.ts:28-36 | the initial groups have unique types, cover every type, and none is selected |
| CriteriaService.ToggleCriteriaGroup | src/app/core/services/criteria.service.ts:55-63 | every group of the type has its `selected` negated; nothing else changes: the group count, items and other groups stay |
| CriteriaService.ToggleCriteriaGroupTwice | src/app/core/services/criteria.service.ts:55-63 | toggling twice restores the groups |
| CriteriaService.ToggleCriteriaGroupFlips | src/app/core/services/criteria.service.ts:55-63 | with unique types, the type's selection is negated |
| CriteriaService.ToggleCriteriaGroupKeepsOthers | src/app/core/services/criteria.service.ts:55-63 | other types' selection is unchanged |
| CriteriaService.SetCriteriaGroups | src/app/core/services/criteria.service.ts:206-213 | each group is selected iff its type is listed; nothing but `selected` changes |
| CriteriaService.ResetCriteriaGroups | src/app/core/services/criteria.service.ts:197-201 | every group is deselected and nothing else changes |
| CriteriaService.SetSelectsListed | src/app/core/services/criteria.service.ts:197-213 | after setting, a type is selected iff it is listed and has a group; reset is setting the empty list and leaves nothing selected |
| CriteriaService.ValidateCriteriaDistribution | src/app/core/services/criteria.service.ts:83-125 | no rows gives (invalid, empty values); otherwise the flags mean some blank id, some missing or non-positive percentage, and a repeated non-blank id, and valid means none of the three (the `Describes` predicate) |
| CriteriaService.ScanRows | src/app/core/services/criteria.service.ts:98-115 | the single pass records a blank id, a bad percentage, and the non-blank ids in order |
| CriteriaService.TypeOkIff | src/app/core/services/criteria.service.ts:89-124 | the service's verdict for a type is the component's: rows exist, none blank, none with a bad percentage, no duplicates |
| CriteriaService.FailingTypesMembers | src/app/core/services/criteria.service.ts:170-177 | a type is reported invalid iff it is among the checked types and fails |
| CriteriaService.ValidateAllCriteriaDistributions | src/app/core/services/criteria.service.ts:153-184 | nothing selected is valid with no results; otherwise the invalid types are exactly the failing selected types in selection order, a result is kept for each selected type and carries all four fields of that type's validation, and the whole is valid iff none failed |
| CriteriaService.ValidateEach | src/app/core/services/criteria.service.ts:170-177 | the loop collects exactly the failing types in order, with one result per type carrying that type's verdict and its three flags |
| CriteriaService.ValidateType | src/app/core/services/criteria.service.ts:171-172 | the result stored for a type is its full validation: verdict and the three flags |
| CriteriaService.GetCriteriaGroupStatus | src/app/core/services/criteria.service.ts:189-192 | VALID iff every selected type passes, the same status the component computes |
| CriteriaService.GetValidationErrorMessage | src/app/core/services/criteria.service.ts:218-241 | null iff the type passes; otherwise empty values first, then invalid percentages, then duplicates; the fallback message is unreachable |
| CustomValidators.FilledCounts | src/app/core/validators/custom.validators.ts:19-21 | a non-blank value is kept as often as it occurs; blank and missing values are dropped |
| CustomValidators.DuplicateDistributionValueValidator | src/app/core/validators/custom.validators.ts:15-17 | null for arrays of at most one control |
| CustomValidators.ValidatorIff | src/app/core/validators/custom.validators.ts:19-29 | the error is reported iff some non-blank value occurs on two controls |
| CustomValidators.ValidatorIgnoresOrder | src/app/core/validators/custom.validators.ts:19-27 | the verdict depends only on the multiset of values |
| CustomValidators.BlankNeverCounts | src/app/core/validators/custom.validators.ts:20-21 | adding a control with no value or a blank one never changes the verdict |
| CustomValidators.SameValueTwiceFlagged | src/app/core/validators/custom.validators.ts:19-27 | two "male" controls are flagged |
| CustomValidators.BlankValuesNotFlagged | src/app/core/validators/custom.validators.ts:20-21 | two whitespace values and a missing one are not flagged |
| NewScenarioCriteria.SelectedGroupsMembers | src/app/pages/new-scenario/new-scenario.ts:110-112 | a group is in the selected list iff it is a group and selected |
| NewScenarioCriteria.SelectedGroupsEmpty | src/app/pages/new-scenario/new-scenario.ts:110-112 | the selected list is empty iff no group is selected |
| NewScenarioCriteria.DuplicatesInCriteriaTypeIff | src/app/pages/new-scenario/new-scenario.ts:919-929 | false for an absent group; otherwise true iff a non-blank id occurs twice among its items (one item never repeats) |
| NewScenarioCriteria.UniqueItemsNoDuplicates | src/app/pages/new-scenario/new-scenario.ts:919-929 | groups whose item ids are unique never report duplicates |
| NewScenarioCriteria.PageCriteriaGroupStatus | src/app/pages/new-scenario/new-scenario.ts:114-154 | VALID iff every selected group has items, all with a non-blank id and a positive percentage, and no duplicates; VALID when nothing is selected |
| NewScenarioCriteria.PageCriteriaValidation | src/app/pages/new-scenario/new-scenario.ts:314-328 | true iff some group is selected and every selected group has items, all with a non-blank id and a positive percentage |
| NewScenarioCriteria.StatusVersusValidation | src/app/pages/new-scenario/new-scenario.ts:114-154 | with nothing selected the status is VALID but validation false; otherwise VALID iff validation holds and no selected group has duplicates |
| NewScenarioCriteria.KeepControlsMembers | src/app/pages/new-scenario/new-scenario.ts:903-910 | a control survives the clearing loop iff its value is not among the group's ids |
| NewScenarioCriteria.ToggleCriterion | src/app/pages/new-scenario/new-scenario.ts:586-613 | the groups toggle; turning a type on keeps the controls; turning it off removes exactly the controls whose value is one of the group's item ids, keeping the others in order |
| NewScenarioCriteria.KeepControlsAppend | src/app/pages/new-scenario/new-scenario.ts:903-910 | clearing distributes over concatenation, so the surviving controls keep their relative order |
| NewScenarioCriteria.AddDistributionItem | src/app/pages/new-scenario/new-scenario.ts:622-652 | a control is appended iff no control has the id; the item (id, name, null) is appended to the type's group iff the group lacks it; an absent group and all other groups are untouched |
| NewScenarioCriteria.AddKeepsValuesUnique | src/app/pages/new-scenario/new-scenario.ts:622-648 | adding keeps control values and each group's item ids unique |
| NewScenarioCriteria.AddsNeverDuplicate | src/app/pages/new-scenario/new-scenario.ts:919-929 | from a state without repeats, an add never makes any type report duplicates |
| NewScenarioCriteria.FormArrayIndexForItem | src/app/pages/new-scenario/new-scenario.ts:881-895 | with no matching group the index is the item count of all selected groups; otherwise it is at least k |
| NewScenarioCriteria.GetFormArrayIndexForItem | src/app/pages/new-scenario/new-scenario.ts:881-895 | the loop, which returns early at the first group of the type, agrees with the closed-form position: k plus the item counts of the selected groups in front of that group, or the item count of all selected groups when none matches |
| NewScenarioCriteria.RemoveItemFromGroup | src/app/pages/new-scenario/new-scenario.ts:670-673 | the k-th item is spliced out of the type's group and its total recomputed from the remaining items; other groups unchanged |
| NewScenarioCriteria.RemoveDistributionItem | src/app/pages/new-scenario/new-scenario.ts:654-677 | as written: an absent group or an index past its items changes nothing; otherwise the item leaves the group and the control at the group-order index is removed when that index is inside the array |
| NewScenarioCriteria.RemoveDropsWrongControl | src/app/pages/new-scenario/new-scenario.ts:654-677 | select gender and age group, add "male", "18-25", "female", then remove the second gender item: the "18-25" control goes and "female" stays |
| NewScenarioCriteria.ScenarioShape | src/app/pages/new-scenario/new-scenario.ts:586-652 | the toggles and three adds of that scenario give groups in selection order and controls in add order |
| NewScenarioCriteria.RemoveDistributionItemById | src/app/pages/new-scenario/new-scenario.ts:654-677 | corrected: the item leaves its group as before, and the first control carrying that item's id is removed, or none when no control has it |
| NewScenarioCriteria.RemoveByIdDropsFirstMatch | src/app/pages/new-scenario/new-scenario.ts:654-677 | corrected: the removed control is the first one whose value is the item's id, wherever it sits |
| NewScenarioCriteria.RemoveByIdKeepsOtherValues | src/app/pages/new-scenario/new-scenario.ts:654-677 | corrected: every control with another value is kept, in order |
| NewScenarioCriteria.RemoveByIdOnScenario | src/app/pages/new-scenario/new-scenario.ts:654-677 | corrected, on the same scenario: "female" is removed and "male", "18-25" remain |
| NewScenarioCriteria.SetControlPercentage | src/app/pages/new-scenario/new-scenario.ts:681-695 | only the first control with the id gets the percentage; values never change |
| NewScenarioCriteria.SetItemPercentage | src/app/pages/new-scenario/new-scenario.ts:698-708 | in the first group of the type, only the first item with the id gets the percentage and the group total is recomputed from the items; other groups unchanged; no matching group or item changes nothing; ids, selection and types never change |
| NewScenarioCriteria.UpdateDistributionPercentage | src/app/pages/new-scenario/new-scenario.ts:679-712 | both the control and the group item are updated; control values are unchanged |
| NewScenarioCriteria.UpdateKeepsDuplicates | src/app/pages/new-scenario/new-scenario.ts:679-712 | editing a percentage never changes any type's duplicate status |
| NewScenarioCriteria.ResetForm | src/app/pages/new-scenario/new-scenario.ts:931-938 | the criteria state returns to no groups and no controls, so nothing is selected and the status is VALID |
| NewScenarioSteps.MarkStepAsCompleted | src/app/pages/new-scenario/new-scenario.ts:371-376 | the id joins the visited set; touched is unchanged |
| NewScenarioSteps.MarkStepAsTouched | src/app/pages/new-scenario/new-scenario.ts:379-400 | one of the six step ids becomes touched; any other id changes nothing |
| NewScenarioSteps.MarkAllStepsAsTouched | src/app/pages/new-scenario/new-scenario.ts:558-565 | all six steps become touched; visited unchanged |
| NewScenarioSteps.OnStepChanged | src/app/pages/new-scenario/new-scenario.ts:422-438 | the target step becomes visited, and the source step becomes touched when its index is in range |
| NewScenarioSteps.BookkeepingGrows | src/app/pages/new-scenario/new-scenario.ts:362-438 | the visited and touched sets only grow under any sequence of events |
| NewScenarioSteps.ProductStaysVisited | src/app/pages/new-scenario/new-scenario.ts:362-368 | the product step, visited from the start, stays visited |
| NewScenarioSteps.StepperConfig | src/app/pages/new-scenario/new-scenario.ts:195-255 | six steps in wizard order, with no validity list |
| NewScenarioSteps.MandatoryStepFlags | src/app/pages/new-scenario/new-scenario.ts:160-192 | a mandatory step is completed iff visited and valid and has an error iff touched and invalid; only criteria and comments are optional |
| NewScenarioSteps.OptionalStepFlags | src/app/pages/new-scenario/new-scenario.ts:169-180 | criteria is completed iff visited and either nothing is selected or validation holds; it has an error iff not VALID and touched or something selected; comments is completed iff visited |
| NewScenarioSteps.ValidCriteriaStepIsClean | src/app/pages/new-scenario/new-scenario.ts:441-453 | a visited criteria step with VALID status is completed and error-free |
| NewScenarioSteps.CanCompleteCurrentStep | src/app/pages/new-scenario/new-scenario.ts:411-419 | false past the last step, true on an optional step, otherwise the step's completed flag |
| NewScenarioSteps.CanCompleteOnPage | src/app/pages/new-scenario/new-scenario.ts:411-419 | on the page, criteria and comments can always be completed, product iff visited and valid, and index 6 never |
| NewScenarioSteps.PageStepperNeverAdvancesWithNext | src/app/pages/new-scenario/new-scenario.ts:195-255 | since the page's config has no validity list, "next" never moves and every step is selectable |
| Surveys.CeilDiv | src/app/core/services/survey.service.ts:24 | `Math.ceil(a / b)`: the least count of pages of b that holds a items |
| Surveys.InitialPagination | src/app/core/services/survey.service.ts:20-25 | page 1, 10 per page, the total, and the least page count that holds the total |
| Surveys.ProductStepPagination | src/app/components/product-step/product-step.ts:23-28 | the product step's fixed pagination (page 1 of 3, 25 surveys, 10 per page) is the service's initial one for 25 surveys |
| Surveys.CurrentPageSurveys | src/app/core/services/survey.service.ts:32-38 | the page's slice of the list, with at most `surveysPerPage` surveys |
| Surveys.PageWindowBounds | src/app/core/services/survey.service.ts:49-57 | on a valid page of a consistent pagination, 1 <= start <= end <= total and the page is exactly surveys start..end |
| Surveys.PaginationPages | src/app/core/services/survey.service.ts:40-47 | the list [1..totalPages] (empty when no pages), each of which `goToPage` accepts |
| Surveys.GoToPage | src/app/core/services/survey.service.ts:126-134 | only `currentPage` changes, and only for 1 <= page <= totalPages |
| Surveys.ProductStepGoToPage | src/app/components/product-step/product-step.ts:105-113 | on 3 pages, 0, -1 and 4 are ignored and 2 and 3 are accepted |
| Surveys.NextPage | src/app/core/services/survey.service.ts:139-145 | moves up by one below the last page, otherwise no change |
| Surveys.PreviousPage | src/app/core/services/survey.service.ts:150-155 | moves down by one above page 1, otherwise no change |
| Surveys.NavigationStaysOnValidPage | src/app/core/services/survey.service.ts:126-155 | from a valid page, any sequence of go-to, next and previous stays on a valid page and changes nothing but the page |
| Surveys.UpdateSurveysPerPage | src/app/core/services/survey.service.ts:160-170 | for n > 0, the page count is the least that holds the list, the page is clamped to it, the total is kept, and a non-empty list stays on a valid page |
| Surveys.ToggleSurveySelection | src/app/core/services/survey.service.ts:70-78 | exactly the surveys with the id flip `selected`; nothing else changes |
| Surveys.ToggleSurveyTwice | src/app/core/services/survey.service.ts:70-78 | toggling twice restores the list |
| Surveys.GetSelectedSurveyIds | src/app/components/product-step/product-step.ts:115-117 | an id is listed iff some selected survey has it, and there is one id per selected survey |
| Surveys.GetSelectedSurveyIdsSnoc | src/app/components/product-step/product-step.ts:115-117 | appending a survey appends its id exactly when it is selected, so the ids follow the survey order |
| Surveys.SelectedCountFacts | src/app/core/services/survey.service.ts:117-121 | the selected count is at most the length, equals it iff all are selected, is 0 iff none is, and is the number of selected ids |
| Surveys.AllSomeExclusive | src/app/core/services/survey.service.ts:109-121 | "some" holds iff the page has both a selected and an unselected survey, so "all" and "some" never hold together |
| Surveys.SelectAllSurveysOnPage | src/app/core/services/survey.service.ts:83-91 | every survey in the page window becomes selected |
| Surveys.DeselectAllSurveysOnPage | src/app/core/services/survey.service.ts:96-104 | every survey in the page window becomes unselected |
| Surveys.PageSelectionKeepsOffPage | src/app/core/services/survey.service.ts:83-104 | with unique ids, surveys outside the window are untouched by select-all and deselect-all |
| Surveys.ToggleAllCurrentPageSurveys | src/app/components/product-step/product-step.ts:89-103 | the page is deselected when it was fully selected and selected otherwise |
| Surveys.ToggleAllFlips | src/app/components/product-step/product-step.ts:89-103 | on a non-empty page, "all selected" flips |
| Surveys.ToggleAllKeepsOffPage | src/app/components/product-step/product-step.ts:93-100 | with unique ids, off-page surveys are untouched |
| Surveys.ResetSelections | src/app/core/services/survey.service.ts:175-179 | every flag is cleared and nothing else changes |
| Surveys.SetSelectedSurveyIds | src/app/core/services/survey.service.ts:191-198 | a survey is selected iff its id is listed; order and other fields unchanged |
| Surveys.ResetIsSetEmpty | src/app/core/services/survey.service.ts:175-198 | resetting is setting the empty list and leaves no selected id |
| Surveys.SetSelectedRoundTrip | src/app/core/services/survey.service.ts:191-198 | with unique ids, setting the currently selected ids restores the list |
| Surveys.SetThenGet | src/app/core/services/survey.service.ts:59-65 | after setting, an id is reported selected iff it was listed and some survey has it |
| Surveys.ToggleUpdatesSelectedIds | src/app/components/product-step/product-step.ts:66-76 | the form's selected ids gain or lose exactly the toggled id |
| Surveys.GetSurveyById | src/app/core/services/survey.service.ts:184-186 | the first survey with the id, or none iff no survey has it |
| FormValidation.IsFormGroupEmpty | src/app/core/services/form-validation.service.ts:15-21 | true iff every value is null, undefined, '' or an empty array |
| FormValidation.StrictEmptiness | src/app/core/services/form-validation.service.ts:17-19 | a space, 0 and false do not count as empty; emptiness of a longer group is emptiness of its parts |
| FormValidation.GetFormStepStatus | src/app/core/services/form-validation.service.ts:84-90 | PRISTINE iff untouched and empty; otherwise VALID iff the group is valid |
| FormValidation.ShouldShowFormGroupError | src/app/core/services/form-validation.service.ts:95-97 | an error shows only when touched, and then iff invalid |
| FormValidation.ErrorRuleAgreesWithPage | src/app/pages/new-scenario/new-scenario.ts:161-192 | the service's error rule is the page's `*HasError` rule, and a pristine group shows no error |
| FormValidation.ValidatePercentageInput | src/app/core/services/form-validation.service.ts:184-220 | valid with the value iff a number in [0, 100]; otherwise no value and the not-a-number, negative or above-100 message, in that priority |
| FormValidation.RemoveSpacesUndoesSpacing | src/app/core/services/form-validation.service.ts:256 | on a name without spaces, dropping spaces undoes the space inserted before each capital |
| FormValidation.FormatFieldName | src/app/core/services/form-validation.service.ts:254-259 | the label has no white space at either end; for a camelCase name it is the capitalised first letter followed by the rest with a space before each capital, so it starts with a capital, every space precedes a capital and every later capital follows a space |
| FormValidation.FormatFieldNameInvertible | src/app/core/services/form-validation.service.ts:254-259 | for a camelCase name the label starts with a capital, spaces sit exactly before the capitals, and lower-casing the first letter and dropping spaces gives the name back: no letter is lost or changed besides the first |
| FormValidation.FormatFieldNameExample | src/app/core/services/form-validation.service.ts:254-259 | "experienceProduct" becomes "Experience Product" |
| FormValidation.ErrorMessageKind | src/app/core/services/form-validation.service.ts:225-249 | no message iff no errors; otherwise required, then min, then max, then email, then pattern, then generic |
| FormValidation.GetFieldErrorMessage | src/app/core/services/form-validation.service.ts:225-249 | '' iff no errors; otherwise the message of the highest-priority error, naming the formatted field and the bound |
| FormValidation.ValidateTotal | src/app/core/services/form-validation.service.ts:41-50 | the filled count is the number of positive values, the total their rounded mean, and valid iff something is filled and the total is at most 100 |
| FormValidation.ValidateImpactDriversTotal | src/app/core/services/form-validation.service.ts:26-51 | at most six filled drivers; valid iff something is filled and the total is at most 100 |
| FormValidation.ValidateEnpsSettingsTotal | src/app/core/services/form-validation.service.ts:56-79 | at most three filled settings; valid iff something is filled and the total is at most 100 |
| FormValidation.ImpactDriversTotal | src/app/components/impact-driver-step/impact-driver-step.ts:14-28 | the total is never negative; its value is related to the service in `FormValidation.ComponentAgreesWithService` |
| FormValidation.EnpsSettingsTotal | src/app/components/enps-settings-step/enps-settings-step.ts:14-25 | the total is never negative; its value is related to the service in `FormValidation.ComponentAgreesWithService` |
| FormValidation.ComponentAgreesWithService | src/app/components/impact-driver-step/impact-driver-step.ts:14-28 | the step components' totals equal the service's, and are 0 exactly when no field is positive |
| FormValidation.InRangeFieldsValidIffFilled | src/app/core/services/form-validation.service.ts:41-47 | with every field in [0, 100], the total is in [0, 100], and the check is valid iff some field is positive |
| FormValidation.UnfilledFieldIgnored | src/app/components/enps-settings-step/enps-settings-step.ts:16-22 | a non-positive field changes neither the total nor the count |
| FormValidation.DriversExample | src/app/core/services/form-validation.service.ts:26-51 | drivers 60, 40, 0, 0, 0, 0 give a valid total of 50 with two filled |

## Left out

- `Number(...)` parsing, the `|| 0` coercions and DOM event targets: the model takes the already-parsed value. This leaves out `updateDistributionPercentageFromEvent*` in the component and the page, and the `Event` argument of `validatePercentageInput`.
- `updateDistributionItem` in the component and the page: it is driven by a DOM select event and combines parsing with the modelled add and remove.
- Angular plumbing: signals, `computed`, change detection, dependency injection, templates and the FormControl/FormArray classes. Form arrays are sequences of records.
- The form-tree walkers `getFormGroupErrors`, `getFormArrayErrors`, `markFormGroupAsTouched`, `markFormArrayAsTouched` and the page's `markFormGroupTouched`: they only walk Angular's control tree.
- The CDK base class of `Stepper`: the `selectedIndex` setter and its out-of-range handling are not visible. `Stepper.SelectStepByIndex` requires an in-range target whenever the move is allowed.
- The `step.ts` step component: it is a bare setter.
- `onCancel`/`onFinish` (router navigation, `window.confirm`, `console.log`), `isProductGroupEmpty`, which only feeds `onCancel`, and `SimpleStepperComponent.complete`.
- `getCriteriaOptionsForType`, `getCriteriaOption` and the option table of `scenario-options.ts`: a static lookup table. Only the five criteria names are modelled.
- `getDistributionControlByIndex` and the other control getters: they return Angular control objects.
- NewScenarioCriteria.RemoveDistributionItem: takes a `nat` index. With a negative index, `splice(-1)` would remove from the end.
- NewScenarioSteps.CanCompleteCurrentStep: takes a `nat` index. A negative index throws in JavaScript.
- Surveys.UpdateSurveysPerPage: requires n > 0. Division by zero gives `Infinity`/`NaN` pages in JavaScript.
- Floating point: means and rounding are exact reals. IEEE-754 artefacts of `Math.round(x * 100) / 100` are not modelled.
- FormValidation.FormatFieldName: `toUpperCase` is modelled for ASCII letters only, and the first character is upper-cased unless it is a line terminator, as `/^./` does.
- The stepper's `stepValidations` is modelled as an optional list on the config, as the code reads it. The page never supplies one, so the page-level lemmas show the code's behaviour, not the flag-driven navigation the stepper's tests expect.
- FormValidation.ImpactDriversTotal: its contract states only non-negativity. The mean itself is stated through `FormValidation.ComponentAgreesWithService`.
- FormValidation.EnpsSettingsTotal: the same as `ImpactDriversTotal`, for the three eNPS fields.
- Percentages are integers throughout (`Option<int>` on items, rows and controls, `int` in the step forms). The `Number(...) || 0` coercion also admits fractions such as 0.004, which count as filled but round to a total of 0. The zero-iff clauses of the members below hold for integer input only.
- Averages.MeanOfPositives: `r == 0.0 <==> Positives(xs) == []` is not promised for positive values below 0.005.
- Criteria.TotalPercentageForType: "0 exactly when nothing is filled" is not promised for fractional percentages below 0.005.
- Criteria.ItemsTotal: the same as `TotalPercentageForType`, for one group's items.
- FormValidation.ValidateTotal: "total 0 iff nothing is filled" is not promised for fractions; a single 0.004 gives one filled field, a total of 0 and a valid result.
- FormValidation.ComponentAgreesWithService: the zero-iff clauses are not promised for fractional field values below 0.005.

## Findings

| source | as written | input that shows it | evidently intended | confidence | as-written member | corrected member |
|---|---|---|---|---|---|---|
| src/app/pages/new-scenario/new-scenario.ts:654-677 | `removeDistributionItem` removes the control at `getFormArrayIndexForItem` (lines 881-895). That index counts items in group order, but controls are appended in add order. | Select gender, then age group. Add "male" (gender), "18-25" (age group), "female" (gender). Remove gender item 1. | Remove the control of the removed item ("female"). Instead the "18-25" control is removed and "female" stays. | not executed | NewScenarioCriteria.RemoveDropsWrongControl | NewScenarioCriteria.RemoveDistributionItemById |
