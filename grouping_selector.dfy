/** The grouping selection (src/components/GroupingSelector.tsx and the
    initial state in src/context/PivotContext.tsx): the row field and the
    ordered column fields, changed by choosing a row field and by ticking a
    column field's checkbox. The row field is never a column field. */
module GroupingSelector {
  import opened PivotTypes

  /** `groups.filter(g => g !== f)` */
  function Without(groups: seq<GroupField>, f: GroupField): seq<GroupField>
    decreases groups
  {
    if groups == [] then []
    else if groups[0] == f then Without(groups[1..], f)
    else [groups[0]] + Without(groups[1..], f)
  }

  /** Removal drops `f` and only `f`, is the identity when `f` is absent, and
      introduces no duplicates. */
  lemma {:induction false} WithoutSpec(groups: seq<GroupField>, f: GroupField)
    ensures forall g :: g in Without(groups, f) <==> g in groups && g != f
    ensures f !in groups ==> Without(groups, f) == groups
    ensures NoDup(groups) ==> NoDup(Without(groups, f))
    decreases groups
  {
    if groups != [] {
      var tail := groups[1..];
      var rest := Without(tail, f);
      WithoutSpec(tail, f);
      assert forall g :: g in groups <==> g == groups[0] || g in tail by {
        assert groups == [groups[0]] + tail;
      }
      if NoDup(groups) {
        NoDupTail(groups);
        if groups[0] != f {
          NoDupCons(groups[0], rest);
        }
      }
    }
  }

  /** Removing a field that occurs once drops exactly its position: the other
      fields keep their order. */
  lemma {:induction false} WithoutAt(groups: seq<GroupField>, k: int)
    requires NoDup(groups) && 0 <= k < |groups|
    ensures Without(groups, groups[k]) == groups[..k] + groups[k + 1..]
    decreases k
  {
    var f := groups[k];
    if k == 0 {
      assert f !in groups[1..] by {
        NoDupTail(groups);
      }
      WithoutSpec(groups[1..], f);
      assert groups[..0] + groups[1..] == groups[1..];
    } else {
      var tail := groups[1..];
      assert tail[k - 1] == f && groups[0] != f;
      assert NoDup(tail) by {
        NoDupTail(groups);
      }
      WithoutAt(tail, k - 1);
      assert Without(groups, f) == [groups[0]] + Without(tail, f);
      assert groups[..k] + groups[k + 1..] == [groups[0]] + (tail[..k - 1] + tail[k..]);
    }
  }

  /** The checkbox for `f`: remove `f` when it is a column field, append it
      at the end otherwise. */
  function Toggle(groups: seq<GroupField>, f: GroupField): seq<GroupField>
  {
    if f in groups then Without(groups, f) else groups + [f]
  }

  /** After a toggle, `f` is a column field exactly when it was not before,
      and every other field is one exactly when it was. */
  lemma {:induction false} ToggleMembers(groups: seq<GroupField>, f: GroupField)
    ensures forall g :: g in Toggle(groups, f) <==> (if g == f then f !in groups else g in groups)
  {
    WithoutSpec(groups, f);
  }

  /** Toggling an absent field appends it; toggling a present one removes it
      and keeps the others in order. */
  lemma {:induction false} ToggleSpec(groups: seq<GroupField>, f: GroupField)
    requires NoDup(groups)
    ensures f !in groups ==> Toggle(groups, f) == groups + [f]
    ensures forall k :: 0 <= k < |groups| && groups[k] == f ==> Toggle(groups, f) == groups[..k] + groups[k + 1..]
  {
    forall k | 0 <= k < |groups| && groups[k] == f
      ensures Toggle(groups, f) == groups[..k] + groups[k + 1..]
    {
      WithoutAt(groups, k);
    }
  }

  lemma {:induction false} WithoutLast(groups: seq<GroupField>, f: GroupField)
    requires f !in groups
    ensures Without(groups + [f], f) == groups
    decreases groups
  {
    if groups == [] {
      assert Without([f][1..], f) == [];
    } else {
      WithoutLast(groups[1..], f);
      assert (groups + [f])[1..] == groups[1..] + [f];
      assert groups == [groups[0]] + groups[1..];
    }
  }

  /** Toggling an absent field twice gives back the original list. */
  lemma {:induction false} ToggleTwice(groups: seq<GroupField>, f: GroupField)
    requires f !in groups
    ensures Toggle(Toggle(groups, f), f) == groups
  {
    assert f in groups + [f];
    WithoutLast(groups, f);
  }

  /** Toggling never introduces a duplicate. */
  lemma {:induction false} ToggleNoDup(groups: seq<GroupField>, f: GroupField)
    requires NoDup(groups)
    ensures NoDup(Toggle(groups, f))
  {
    WithoutSpec(groups, f);
    if f !in groups {
      var r := groups + [f];
      forall i, j | 0 <= i < j < |r| ensures r[i] != r[j] {
        if j == |groups| {
          assert r[i] == groups[i];
        }
      }
    }
  }

  // ----- the selection as a state machine -----

  datatype SelectionState = SelectionState(rowGroup: GroupField, colGroups: seq<GroupField>)

  /** The row field is not a column field, and no column field is listed twice. */
  predicate Consistent(st: SelectionState)
  {
    st.rowGroup !in st.colGroups && NoDup(st.colGroups)
  }

  /** `useState('transaction_type')`, `useState(['year'])` */
  function Initial(): (st: SelectionState)
    ensures Consistent(st)
  {
    SelectionState(TransactionType, [Year])
  }

  /** `handleRowChange`: the chosen field becomes the row field and, when it
      was a column field, leaves the column fields. */
  function RowChange(st: SelectionState, next: GroupField): SelectionState
  {
    SelectionState(next, if next in st.colGroups then Without(st.colGroups, next) else st.colGroups)
  }

  /** `toggleColumnField`. */
  function ToggleColumn(st: SelectionState, f: GroupField): SelectionState
  {
    SelectionState(st.rowGroup, Toggle(st.colGroups, f))
  }

  /** What the user can do: pick a row field, or click a column checkbox. */
  datatype Action = ChooseRow(field: GroupField) | ClickColumn(field: GroupField)

  /** One user action. The row field's checkbox is disabled: a click on it
      changes nothing. */
  function Step(st: SelectionState, a: Action): SelectionState
  {
    match a
    case ChooseRow(f) => RowChange(st, f)
    case ClickColumn(f) => if f == st.rowGroup then st else ToggleColumn(st, f)
  }

  /** The selection after a sequence of user actions. */
  function Run(st: SelectionState, actions: seq<Action>): SelectionState
    decreases actions
  {
    if actions == [] then st else Run(Step(st, actions[0]), actions[1..])
  }

  /** A row change sets the row field, removes it from the column fields
      keeping the others in order, and keeps the selection consistent. */
  lemma {:induction false} RowChangeSpec(st: SelectionState, next: GroupField)
    requires NoDup(st.colGroups)
    ensures RowChange(st, next).rowGroup == next
    ensures next !in st.colGroups ==> RowChange(st, next).colGroups == st.colGroups
    ensures forall k :: 0 <= k < |st.colGroups| && st.colGroups[k] == next ==>
              RowChange(st, next).colGroups == st.colGroups[..k] + st.colGroups[k + 1..]
    ensures Consistent(RowChange(st, next))
  {
    WithoutSpec(st.colGroups, next);
    forall k | 0 <= k < |st.colGroups| && st.colGroups[k] == next
      ensures RowChange(st, next).colGroups == st.colGroups[..k] + st.colGroups[k + 1..]
    {
      WithoutAt(st.colGroups, k);
    }
  }

  /** Toggling any field but the row field keeps the selection consistent. */
  lemma {:induction false} ToggleColumnConsistent(st: SelectionState, f: GroupField)
    requires Consistent(st) && f != st.rowGroup
    ensures Consistent(ToggleColumn(st, f))
  {
    ToggleMembers(st.colGroups, f);
    ToggleNoDup(st.colGroups, f);
  }

  /** Every user action keeps the selection consistent. */
  lemma {:induction false} StepConsistent(st: SelectionState, a: Action)
    requires Consistent(st)
    ensures Consistent(Step(st, a))
  {
    match a
    case ChooseRow(f) => RowChangeSpec(st, f);
    case ClickColumn(f) =>
      if f != st.rowGroup {
        ToggleColumnConsistent(st, f);
      }
  }

  /** From the initial selection, whatever the user does, the row field is
      never a column field and no column field is listed twice. */
  lemma {:induction false} RunConsistent(st: SelectionState, actions: seq<Action>)
    requires Consistent(st)
    ensures Consistent(Run(st, actions))
    decreases actions
  {
    if actions != [] {
      StepConsistent(st, actions[0]);
      RunConsistent(Step(st, actions[0]), actions[1..]);
    }
  }

  /** The selector's state, updated in place by its two handlers. */
  class Selection {
    var rowGroup: GroupField
    var colGroups: seq<GroupField>

    function State(): SelectionState
      reads this
    {
      SelectionState(rowGroup, colGroups)
    }

    constructor()
      ensures State() == Initial()
    {
      rowGroup := TransactionType;
      colGroups := [Year];
    }

    /** `handleRowChange` */
    method HandleRowChange(next: GroupField)
      modifies this
      ensures State() == RowChange(old(State()), next)
    {
      rowGroup := next;
      if next in colGroups {
        colGroups := Without(colGroups, next);
      }
    }

    /** `toggleColumnField` */
    method ToggleColumnField(f: GroupField)
      modifies this
      ensures State() == ToggleColumn(old(State()), f)
    {
      if f in colGroups {
        colGroups := Without(colGroups, f);
      } else {
        colGroups := colGroups + [f];
      }
    }
  }
}
