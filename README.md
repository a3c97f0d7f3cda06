# Employment History step — Dafny model

This project models the state-update logic of the "Employment History" step
of a job-application wizard (`EmploymentHistoryStep.tsx`). The step owns no
state. It reads the parent's `EmploymentHistory` data, which has three parts:

- the yes/no answer `previouslyEmployed`;
- an optional "most recent employer" record;
- an optional list of "previous employer" records.

It reports every edit through one callback, `updateData(field, value)`, and
always hands over a whole new value for one field.

The model is pure, like the source:

- An employer record is a `map<string, string>`. A key that is absent reads
  as `''`, as the inputs' `?.x || ''` fallbacks do.
- An optional part is an `Option`.
- Each of the four helpers (`addPreviousEmployer`, `removePreviousEmployer`,
  `updateRecentEmployer`, `updatePreviousEmployer`) is a function. It takes
  the current data and returns the single `Update` it passes to `updateData`.
  That `Update` carries the field name (`Update.Field()`) and the whole new
  value.
- The index-based `filter` and `map` of the source are recursive functions
  that walk the list position by position and compare each position with
  `index`, just as the callbacks `(_, i) => i !== index` and
  `(emp, i) => i === index ? … : emp` do. Lemmas tie them to the splice
  `s[..i] + s[i+1..]` and to the sequence update `s[i := …]`.
- The choice of view is a total function of `previouslyEmployed`: `''` gives
  the yes/no selector, `'yes'` gives the employer forms, and any other value
  (`'no'` included) gives the message view.

Files: `wrappers.dfy` (module `Wrappers`, the `Option` type) and
`employment_history_step.dfy` (module `EmploymentHistoryStep`, the whole
model).

## Model

| member | source | states |
|---|---|---|
| `EmploymentHistoryStep.Update.Field` | src/components/job-application/steps/EmploymentHistoryStep.tsx:35-65 | the field name handed to `updateData`: `'previouslyEmployed'`, `'recentEmployer'` or `'previousEmployers'`, one per kind of update and different for each |
| `EmploymentHistoryStep.CurrentEmployers` | src/components/job-application/steps/EmploymentHistoryStep.tsx:34-48 | `data.previousEmployers \|\| []`: an absent list is `[]`, a present list is itself |
| `EmploymentHistoryStep.FieldText` | src/components/job-application/steps/EmploymentHistoryStep.tsx:96-202 | an input shows the record's text for its field, or `''` when the record has no such key |
| `EmploymentHistoryStep.Shown` | src/components/job-application/steps/EmploymentHistoryStep.tsx:96-202 | `data.recentEmployer?.x \|\| ''`: `''` when the record is absent, otherwise the record's text for the field or `''` when the key is missing |
| `EmploymentHistoryStep.EmptyEmployer` | src/components/job-application/steps/EmploymentHistoryStep.tsx:15-30 | the blank record's keys are exactly the named employer fields and every value is `''` |
| `EmploymentHistoryStep.EmptyEmployerHasFourteenFields` | src/components/job-application/steps/EmploymentHistoryStep.tsx:15-30 | the blank record has exactly 14 fields, and each of them reads as `''` |
| `EmploymentHistoryStep.SelectView` | src/components/job-application/steps/EmploymentHistoryStep.tsx:55-285 | selector if and only if the answer is `''`; forms if and only if it is `'yes'`; message if and only if it is anything else; the views exclude each other and cover every value |
| `EmploymentHistoryStep.ChoosePreviouslyEmployed` | src/components/job-application/steps/EmploymentHistoryStep.tsx:65 | picking an item issues one `updateData('previouslyEmployed', value)` |
| `EmploymentHistoryStep.SelectorAnswerLeavesSelector` | src/components/job-application/steps/EmploymentHistoryStep.tsx:65-79 | after either selector item is picked, the step no longer shows the selector: `'yes'` leads to the forms and `'no'` to the message |
| `EmploymentHistoryStep.AddPreviousEmployer` | src/components/job-application/steps/EmploymentHistoryStep.tsx:33-36 | one `'previousEmployers'` update; an absent list counts as empty; the length grows by one, the first N entries are unchanged and the last one is the blank record |
| `EmploymentHistoryStep.KeepOthers` | src/components/job-application/steps/EmploymentHistoryStep.tsx:40 | filtering by position loses one element when `index` is a position in range and none otherwise |
| `EmploymentHistoryStep.KeepOthersIsSplice` | src/components/job-application/steps/EmploymentHistoryStep.tsx:40 | the position filter equals the splice `s[from..index] + s[index+1..]` when `index` is in range, and the untouched list otherwise |
| `EmploymentHistoryStep.RemovePreviousEmployer` | src/components/job-application/steps/EmploymentHistoryStep.tsx:38-41 | one `'previousEmployers'` update; for `0 <= index < N` the result is `s[..index] + s[index+1..]`; for any other index the list is unchanged; an absent list yields `[]` |
| `EmploymentHistoryStep.RemoveDropsExactlyOne` | src/components/job-application/steps/EmploymentHistoryStep.tsx:38-41 | a valid removal gives length N-1; entries before `index` stay in place and later ones shift down by one; exactly one copy of the removed record leaves the multiset, even when other entries are equal to it |
| `EmploymentHistoryStep.SpliceDropsOne` | src/components/job-application/steps/EmploymentHistoryStep.tsx:40 | the splice that the filter yields for an index in range has length N-1, keeps earlier entries in place, shifts later ones down by one and drops exactly one copy of `s[index]` |
| `EmploymentHistoryStep.AddThenRemoveRestores` | src/components/job-application/steps/EmploymentHistoryStep.tsx:33-41 | removing the entry that add appended gives back the list add started from |
| `EmploymentHistoryStep.UpdateFrom` | src/components/job-application/steps/EmploymentHistoryStep.tsx:49-51 | the index-comparing `map` keeps the length; it changes only the element at `index`, and only by setting `field` to `value` |
| `EmploymentHistoryStep.UpdatePreviousEmployer` | src/components/job-application/steps/EmploymentHistoryStep.tsx:47-53 | one `'previousEmployers'` update of the same length; every entry at another position is unchanged; for an index in range, that entry maps `field` to `value`, gains no key other than `field` and keeps every other key's value; for an index out of range the list is unchanged |
| `EmploymentHistoryStep.UpdateIsSeqUpdate` | src/components/job-application/steps/EmploymentHistoryStep.tsx:49-51 | for an index in range the result is the sequence update `s[index := s[index][field := value]]` |
| `EmploymentHistoryStep.UpdateLastWriteWins` | src/components/job-application/steps/EmploymentHistoryStep.tsx:47-53 | two updates of the same field of the same entry, applied in turn, equal the second update alone |
| `EmploymentHistoryStep.UpdateWithSameTextIsNoOp` | src/components/job-application/steps/EmploymentHistoryStep.tsx:49-51 | writing a field's current text back gives the list unchanged |
| `EmploymentHistoryStep.UpdateRecentEmployer` | src/components/job-application/steps/EmploymentHistoryStep.tsx:43-45 | one `'recentEmployer'` update; the new record maps `field` to `value`; its keys are the old keys plus `field`; every other key keeps its value; from an absent record the only key is `field` |
| `EmploymentHistoryStep.RecentUpdateShown` | src/components/job-application/steps/EmploymentHistoryStep.tsx:43-45 | after the merge, the input for `field` shows `value` and every other input shows what it showed before (through the `?.x \|\| ''` fallback) |
| `EmploymentHistoryStep.RecentUpdateFromAbsent` | src/components/job-application/steps/EmploymentHistoryStep.tsx:96-203 | when the recent employer was absent, every employer field other than `field` reads `''` after the merge |

## Left out

- The JSX markup, CSS classes and UI library components (labels, inputs,
  cards, buttons, icons). They are presentation only.
- Event wiring (`e.target.value`, `onValueChange`) and React list keys. These
  belong to the host framework. Each handler is modelled only through the
  helper it calls.
- What the parent wizard does with an `Update`: merging, persistence and
  moving to the next step. That code is not part of this model. The lemmas
  that read an emitted value as the step's next data take as a hypothesis,
  or by construction, that the parent stored that value in the named field:
  `AddThenRemoveRestores` and `UpdateLastWriteWins` (the emitted list),
  `SelectorAnswerLeavesSelector` (the emitted answer, fed to `SelectView`),
  and `RecentUpdateShown` and `RecentUpdateFromAbsent` (the emitted record,
  fed to `Shown`).
- The `EmploymentHistory` type from `../types` is not part of this model.
  Only the three fields that the step reads are modelled.
- `index` is a JavaScript `number` in the source and an `int` here. A
  fractional or `NaN` index matches no position, so in the source it behaves
  like an out-of-range index. The model does not represent such values.
- `from`, `to` and `leavingDate` are opaque strings. They are never parsed.
- The `*` markers on required fields are label text only. Nothing enforces
  them.
- Property order inside a JavaScript object is not modelled, because a record
  is a map.
- Object identity is not modelled. The source appends a fresh copy
  `{ ...emptyEmployer }` and hands back the very same `emp` object for every
  position other than `index`. The model states these facts only as equality
  by value, so "reference-unchanged" is not captured.
- What the previous-employer cards display is not modelled. They render
  `employer.company` and similar fields with no `''` fallback, which is
  presentation.
- The code appends a new previous employer at the end of the list, although
  the heading says the list runs "from most recent". The model keeps the code's
  behaviour: the new entry goes at the end.
