/**
 * The "Employment History" step of the job-application wizard.
 *
 * The step holds no state of its own: it reads the parent's
 * `EmploymentHistory` and reports every edit as one whole-field
 * replacement through `updateData(field, value)`. Each edit helper is
 * modelled as a function from the current data to the single `Update`
 * it hands to `updateData`; the view the step renders is a function of
 * `previouslyEmployed`.
 */
module EmploymentHistoryStep {
  import opened Wrappers

  /** One employer record: field name to text. A key that is absent reads as `''`. */
  type Employer = map<string, string>

  /** The fields of a blank employer record, in declaration order. */
  const EmployerFields: seq<string> := [
    "company", "name", "email", "position", "address", "address2", "town",
    "postcode", "telephone", "from", "to", "leavingDate", "keyTasks",
    "reasonForLeaving"
  ]

  /** The three parts of the parent's data that this step reads and replaces. */
  datatype EmploymentHistory = EmploymentHistory(
    previouslyEmployed: string,
    recentEmployer: Option<Employer>,
    previousEmployers: Option<seq<Employer>>)

  /** One call of `updateData(field, value)`: the field named and its whole new value. */
  datatype Update =
    | SetPreviouslyEmployed(choice: string)
    | SetRecentEmployer(record: Employer)
    | SetPreviousEmployers(employers: seq<Employer>)
  {
    /** The field name passed as the first argument of `updateData`. */
    function Field(): (name: string)
      ensures SetPreviouslyEmployed? <==> name == "previouslyEmployed"
      ensures SetRecentEmployer? <==> name == "recentEmployer"
      ensures SetPreviousEmployers? <==> name == "previousEmployers"
    {
      match this
      case SetPreviouslyEmployed(_) => "previouslyEmployed"
      case SetRecentEmployer(_) => "recentEmployer"
      case SetPreviousEmployers(_) => "previousEmployers"
    }
  }

  /** The three mutually exclusive renderings of the step. */
  datatype View = YesNoSelector | EmployerForms | NotEmployedMessage

  // ---------------------------------------------------------------------
  // Records and reads
  // ---------------------------------------------------------------------

  /** The blank employer appended by "Add Previous Employer". */
  function EmptyEmployer(): (e: Employer)
    ensures e.Keys == set f | f in EmployerFields
    ensures forall f :: f in e ==> e[f] == ""
  {
    map f | f in EmployerFields :: ""
  }

  /** A sequence with no repeated element has as many distinct elements as entries. */
  lemma {:induction false} DistinctCount(s: seq<string>)
    requires forall i, j | 0 <= i < j < |s| :: s[i] != s[j]
    ensures |set x | x in s| == |s|
  {
    if s != [] {
      DistinctCount(s[1..]);
      assert (set x | x in s) == (set x | x in s[1..]) + {s[0]};
      assert s[0] !in s[1..];
    }
  }

  /** The blank record has exactly the fourteen named fields, all empty. */
  lemma EmptyEmployerHasFourteenFields()
    ensures |EmptyEmployer()| == 14
    ensures forall f | f in EmployerFields :: f in EmptyEmployer() && FieldText(EmptyEmployer(), f) == ""
  {
    DistinctCount(EmployerFields);
  }

  /** The text a form input shows for `field` of a record: missing reads as `''`. */
  function FieldText(e: Employer, field: string): (text: string)
    ensures field in e ==> text == e[field]
    ensures field !in e ==> text == ""
  {
    if field in e then e[field] else ""
  }

  /** `data.recentEmployer?.[field] || ''`: what a recent-employer input shows. */
  function Shown(record: Option<Employer>, field: string): (text: string)
    ensures record.None? ==> text == ""
    ensures record.Some? && field in record.value ==> text == record.value[field]
    ensures record.Some? && field !in record.value ==> text == ""
  {
    FieldText(record.GetOr(map[]), field)
  }

  /** `data.previousEmployers || []`: an absent list counts as empty. */
  function CurrentEmployers(data: EmploymentHistory): (s: seq<Employer>)
    ensures data.previousEmployers.None? ==> s == []
    ensures data.previousEmployers.Some? ==> s == data.previousEmployers.value
  {
    data.previousEmployers.GetOr([])
  }

  // ---------------------------------------------------------------------
  // View selection
  // ---------------------------------------------------------------------

  /** The rendering chosen by the step: `''`, then `'yes'`, then everything else. */
  function SelectView(previouslyEmployed: string): (v: View)
    ensures v == YesNoSelector <==> previouslyEmployed == ""
    ensures v == EmployerForms <==> previouslyEmployed == "yes"
    ensures v == NotEmployedMessage <==> previouslyEmployed != "" && previouslyEmployed != "yes"
  {
    if previouslyEmployed == "" then YesNoSelector
    else if previouslyEmployed == "yes" then EmployerForms
    else NotEmployedMessage
  }

  /** The update the yes/no selector issues when an item is picked. */
  function ChoosePreviouslyEmployed(value: string): (u: Update)
    ensures u.Field() == "previouslyEmployed"
    ensures u.SetPreviouslyEmployed? && u.choice == value
  {
    SetPreviouslyEmployed(value)
  }

  /** Picking either item of the selector leaves the selector for a terminal view. */
  lemma SelectorAnswerLeavesSelector(value: string)
    requires value == "yes" || value == "no"
    ensures SelectView(ChoosePreviouslyEmployed(value).choice) != YesNoSelector
    ensures value == "yes" ==> SelectView(ChoosePreviouslyEmployed(value).choice) == EmployerForms
    ensures value == "no" ==> SelectView(ChoosePreviouslyEmployed(value).choice) == NotEmployedMessage
  {
  }

  // ---------------------------------------------------------------------
  // addPreviousEmployer
  // ---------------------------------------------------------------------

  /** Append one blank employer to the (possibly absent) list. */
  function AddPreviousEmployer(data: EmploymentHistory): (u: Update)
    ensures u.Field() == "previousEmployers" && u.SetPreviousEmployers?
    ensures |u.employers| == |CurrentEmployers(data)| + 1
    ensures u.employers[..|CurrentEmployers(data)|] == CurrentEmployers(data)
    ensures u.employers[|CurrentEmployers(data)|] == EmptyEmployer()
  {
    SetPreviousEmployers(CurrentEmployers(data) + [EmptyEmployer()])
  }

  // ---------------------------------------------------------------------
  // removePreviousEmployer
  // ---------------------------------------------------------------------

  /**
   * `s.filter((_, i) => i !== index)` restricted to the positions `from..|s|`:
   * walks the list keeping every element whose position differs from `index`.
   */
  function KeepOthers(s: seq<Employer>, index: int, from: nat): (r: seq<Employer>)
    requires from <= |s|
    ensures |r| == if from <= index < |s| then |s| - from - 1 else |s| - from
    decreases |s| - from
  {
    if from == |s| then []
    else (if from != index then [s[from]] else []) + KeepOthers(s, index, from + 1)
  }

  /** Filtering out one position is the splice around it; a missing position changes nothing. */
  lemma {:induction false} KeepOthersIsSplice(s: seq<Employer>, index: int, from: nat)
    requires from <= |s|
    ensures KeepOthers(s, index, from)
            == if from <= index < |s| then s[from..index] + s[index + 1..] else s[from..]
    decreases |s| - from
  {
    if from < |s| {
      KeepOthersIsSplice(s, index, from + 1);
      if from != index {
        if from < index < |s| {
          assert s[from..index] == [s[from]] + s[from + 1..index];
        } else {
          assert s[from..] == [s[from]] + s[from + 1..];
        }
      }
    }
  }

  /** Remove the employer at `index` from the (possibly absent) list. */
  function RemovePreviousEmployer(data: EmploymentHistory, index: int): (u: Update)
    ensures u.Field() == "previousEmployers" && u.SetPreviousEmployers?
    ensures var s := CurrentEmployers(data);
            u.employers == if 0 <= index < |s| then s[..index] + s[index + 1..] else s
  {
    var s := CurrentEmployers(data);
    KeepOthersIsSplice(s, index, 0);
    SetPreviousEmployers(KeepOthers(s, index, 0))
  }

  /** Removal at a valid position drops exactly that one element and keeps the others in order. */
  lemma RemoveDropsExactlyOne(data: EmploymentHistory, index: int)
    requires 0 <= index < |CurrentEmployers(data)|
    ensures var s, r := CurrentEmployers(data), RemovePreviousEmployer(data, index).employers;
            && |r| == |s| - 1
            && (forall j :: 0 <= j < index ==> r[j] == s[j])
            && (forall j :: index <= j < |r| ==> r[j] == s[j + 1])
            && multiset(r) + multiset{s[index]} == multiset(s)
  {
    SpliceDropsOne(CurrentEmployers(data), index);
  }

  /** Cutting position `index` out of a list: shifts and multiset of the splice. */
  lemma SpliceDropsOne(s: seq<Employer>, index: int)
    requires 0 <= index < |s|
    ensures var r := s[..index] + s[index + 1..];
            && |r| == |s| - 1
            && (forall j :: 0 <= j < index ==> r[j] == s[j])
            && (forall j :: index <= j < |r| ==> r[j] == s[j + 1])
            && multiset(r) + multiset{s[index]} == multiset(s)
  {
    assert s == s[..index] + [s[index]] + s[index + 1..];
    calc {
      multiset(s);
      multiset(s[..index]) + multiset{s[index]} + multiset(s[index + 1..]);
      multiset(s[..index] + s[index + 1..]) + multiset{s[index]};
    }
  }

  /** Removing the entry that `AddPreviousEmployer` appended gives back the list it started from. */
  lemma AddThenRemoveRestores(data: EmploymentHistory, added: EmploymentHistory)
    requires added.previousEmployers == Some(AddPreviousEmployer(data).employers)
    ensures RemovePreviousEmployer(added, |CurrentEmployers(data)|).employers == CurrentEmployers(data)
  {
  }

  // ---------------------------------------------------------------------
  // updatePreviousEmployer
  // ---------------------------------------------------------------------

  /**
   * `s.map((emp, i) => i === index ? {...emp, [field]: value} : emp)` restricted to
   * the positions `from..|s|`.
   */
  function UpdateFrom(s: seq<Employer>, index: int, field: string, value: string, from: nat)
    : (r: seq<Employer>)
    requires from <= |s|
    ensures |r| == |s| - from
    ensures forall k :: 0 <= k < |r| && from + k != index ==> r[k] == s[from + k]
    ensures forall k :: 0 <= k < |r| && from + k == index ==> r[k] == s[from + k][field := value]
    decreases |s| - from
  {
    if from == |s| then []
    else [if from == index then s[from][field := value] else s[from]]
         + UpdateFrom(s, index, field, value, from + 1)
  }

  /** Set `field` to `value` in the employer at `index`; every other entry is kept. */
  function UpdatePreviousEmployer(data: EmploymentHistory, index: int, field: string, value: string)
    : (u: Update)
    ensures u.Field() == "previousEmployers" && u.SetPreviousEmployers?
    ensures |u.employers| == |CurrentEmployers(data)|
    ensures forall j | 0 <= j < |CurrentEmployers(data)| && j != index ::
              u.employers[j] == CurrentEmployers(data)[j]
    ensures 0 <= index < |CurrentEmployers(data)| ==>
              var old_, new_ := CurrentEmployers(data)[index], u.employers[index];
              && field in new_ && new_[field] == value
              && new_.Keys == old_.Keys + {field}
              && (forall g :: g in old_ && g != field ==> new_[g] == old_[g])
    ensures !(0 <= index < |CurrentEmployers(data)|) ==> u.employers == CurrentEmployers(data)
  {
    SetPreviousEmployers(UpdateFrom(CurrentEmployers(data), index, field, value, 0))
  }

  /** At a valid position the update is the sequence update of one record's field. */
  lemma UpdateIsSeqUpdate(data: EmploymentHistory, index: int, field: string, value: string)
    requires 0 <= index < |CurrentEmployers(data)|
    ensures var s := CurrentEmployers(data);
            UpdatePreviousEmployer(data, index, field, value).employers
              == s[index := s[index][field := value]]
  {
  }

  /** Typing into a previous employer's input twice: the last value wins. */
  lemma UpdateLastWriteWins(data: EmploymentHistory, index: int, field: string, v1: string,
                            v2: string, edited: EmploymentHistory)
    requires edited.previousEmployers == Some(UpdatePreviousEmployer(data, index, field, v1).employers)
    ensures UpdatePreviousEmployer(edited, index, field, v2).employers
            == UpdatePreviousEmployer(data, index, field, v2).employers
  {
    var s := CurrentEmployers(data);
    if 0 <= index < |s| {
      UpdateIsSeqUpdate(data, index, field, v1);
      UpdateIsSeqUpdate(data, index, field, v2);
      UpdateIsSeqUpdate(edited, index, field, v2);
      assert s[index][field := v1][field := v2] == s[index][field := v2];
    }
  }

  /** Writing a field's current text back leaves the list as it was. */
  lemma UpdateWithSameTextIsNoOp(data: EmploymentHistory, index: int, field: string)
    requires 0 <= index < |CurrentEmployers(data)|
    requires field in CurrentEmployers(data)[index]
    ensures var s := CurrentEmployers(data);
            UpdatePreviousEmployer(data, index, field, s[index][field]).employers == s
  {
    var s := CurrentEmployers(data);
    UpdateIsSeqUpdate(data, index, field, s[index][field]);
    assert s[index][field := s[index][field]] == s[index];
  }

  // ---------------------------------------------------------------------
  // updateRecentEmployer
  // ---------------------------------------------------------------------

  /** `{ ...data.recentEmployer, [field]: value }`: a shallow merge of one field. */
  function UpdateRecentEmployer(data: EmploymentHistory, field: string, value: string)
    : (u: Update)
    ensures u.Field() == "recentEmployer" && u.SetRecentEmployer?
    ensures field in u.record && u.record[field] == value
    ensures u.record.Keys == data.recentEmployer.GetOr(map[]).Keys + {field}
    ensures forall g | g in data.recentEmployer.GetOr(map[]) && g != field ::
              u.record[g] == data.recentEmployer.GetOr(map[])[g]
    ensures data.recentEmployer.None? ==> u.record.Keys == {field}
  {
    SetRecentEmployer(data.recentEmployer.GetOr(map[])[field := value])
  }

  /** After the merge, each input shows the new text for `field` and what it showed before elsewhere. */
  lemma RecentUpdateShown(data: EmploymentHistory, field: string, value: string, g: string)
    ensures Shown(Some(UpdateRecentEmployer(data, field, value).record), g)
            == if g == field then value else Shown(data.recentEmployer, g)
  {
  }

  /** From an absent record, the merge leaves every other field of the form showing `''`. */
  lemma RecentUpdateFromAbsent(data: EmploymentHistory, field: string, value: string)
    requires data.recentEmployer.None?
    ensures forall g | g in EmployerFields && g != field ::
              Shown(Some(UpdateRecentEmployer(data, field, value).record), g) == ""
  {
  }
}
