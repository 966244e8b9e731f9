/** The feature-voting store: the catalogue of options, the ids the user
    has ticked (at most three through `toggleOption`) and two busy flags.
    Every action computes a new state from the old one. */
module FeedbackStore {
  import Seqs
  import opened Wrappers

  /** The most options `toggleOption` lets the user tick. */
  const MaxSelected: nat := 3

  datatype FeatureOption = FeatureOption(
    id: string,
    name: string,
    description: Option<string>,
    displayOrder: int,
    isActive: bool,
    voteCount: int,
    isVoted: bool,
    createdAt: string)

  datatype State = State(
    options: seq<FeatureOption>,
    selectedOptions: seq<string>,
    isLoading: bool,
    isSubmitting: bool)

  /** The store as created, and as `reset` leaves it. */
  function Initial(): (st: State)
    ensures st.options == [] && st.selectedOptions == []
    ensures !st.isLoading && !st.isSubmitting
  {
    State([], [], false, false)
  }

  function SetOptions(st: State, options: seq<FeatureOption>): (r: State)
    ensures r.options == options
    ensures r.selectedOptions == st.selectedOptions
    ensures r.isLoading == st.isLoading && r.isSubmitting == st.isSubmitting
  {
    st.(options := options)
  }

  /** Ticks an unticked option while fewer than three are ticked, unticks a
      ticked one, and otherwise leaves the state as it is. */
  function ToggleOption(st: State, optionId: string): (r: State)
    ensures r.options == st.options
    ensures r.isLoading == st.isLoading && r.isSubmitting == st.isSubmitting
    ensures optionId in st.selectedOptions ==>
              optionId !in r.selectedOptions
              && (forall k :: 0 <= k < |r.selectedOptions| ==> r.selectedOptions[k] in st.selectedOptions)
              && (forall k :: 0 <= k < |st.selectedOptions| && st.selectedOptions[k] != optionId
                             ==> st.selectedOptions[k] in r.selectedOptions)
              && |r.selectedOptions| < |st.selectedOptions|
    ensures optionId !in st.selectedOptions && |st.selectedOptions| >= MaxSelected ==> r == st
    ensures optionId !in st.selectedOptions && |st.selectedOptions| < MaxSelected ==>
              r.selectedOptions == st.selectedOptions + [optionId]
  {
    if optionId in st.selectedOptions then
      Seqs.WithoutMembers(st.selectedOptions, optionId);
      st.(selectedOptions := Seqs.Without(st.selectedOptions, optionId))
    else if |st.selectedOptions| >= MaxSelected then
      st
    else
      st.(selectedOptions := st.selectedOptions + [optionId])
  }

  /** Replaces the ticked ids wholesale; the cap does not apply here. */
  function SetSelectedOptions(st: State, optionIds: seq<string>): (r: State)
    ensures r.selectedOptions == optionIds
    ensures r.options == st.options
    ensures r.isLoading == st.isLoading && r.isSubmitting == st.isSubmitting
  {
    st.(selectedOptions := optionIds)
  }

  function SetIsLoading(st: State, loading: bool): (r: State)
    ensures r.isLoading == loading
    ensures r.options == st.options && r.selectedOptions == st.selectedOptions
    ensures r.isSubmitting == st.isSubmitting
  {
    st.(isLoading := loading)
  }

  function SetIsSubmitting(st: State, submitting: bool): (r: State)
    ensures r.isSubmitting == submitting
    ensures r.options == st.options && r.selectedOptions == st.selectedOptions
    ensures r.isLoading == st.isLoading
  {
    st.(isSubmitting := submitting)
  }

  /** Empties the catalogue and the ticked ids and clears both flags. */
  function Reset(st: State): (r: State)
    ensures r == Initial()
  {
    State([], [], false, false)
  }

  /** No toggle takes the selection past three. */
  lemma ToggleKeepsCap(st: State, optionId: string)
    requires |st.selectedOptions| <= MaxSelected
    ensures |ToggleOption(st, optionId).selectedOptions| <= MaxSelected
  {
  }

  /** Unticking an option ticked once, at position `k`, leaves the others
      in their order, repeated ones included. */
  lemma ToggleRemovesInOrder(st: State, k: nat)
    requires k < |st.selectedOptions|
    requires forall j :: 0 <= j < |st.selectedOptions| && j != k ==> st.selectedOptions[j] != st.selectedOptions[k]
    ensures ToggleOption(st, st.selectedOptions[k]).selectedOptions
         == st.selectedOptions[..k] + st.selectedOptions[k + 1..]
  {
    Seqs.WithoutAt(st.selectedOptions, k);
  }

  /** Unticking removes every copy of the option, as the filter does, and
      keeps every other ticked id as often as it was ticked. */
  lemma ToggleDropsEveryCopy(st: State, optionId: string)
    requires optionId in st.selectedOptions
    ensures forall y :: multiset(ToggleOption(st, optionId).selectedOptions)[y]
                     == if y == optionId then 0 else multiset(st.selectedOptions)[y]
  {
    Seqs.WithoutCount(st.selectedOptions, optionId);
  }

  /** Unticking keeps the order of what stays: the selection cut anywhere
      loses the option from both parts. */
  lemma ToggleKeepsOrder(st: State, a: seq<string>, b: seq<string>, optionId: string)
    requires optionId in st.selectedOptions && st.selectedOptions == a + b
    ensures ToggleOption(st, optionId).selectedOptions == Seqs.Without(a, optionId) + Seqs.Without(b, optionId)
  {
    Seqs.WithoutAppend(a, b, optionId);
  }

  /** A selection without repetitions stays without repetitions. */
  lemma ToggleKeepsDistinct(st: State, optionId: string)
    requires Seqs.NoDuplicates(st.selectedOptions)
    ensures Seqs.NoDuplicates(ToggleOption(st, optionId).selectedOptions)
  {
    var s := st.selectedOptions;
    if optionId in s {
      Seqs.WithoutNoDuplicates(s, optionId);
    } else if |s| < MaxSelected {
      var t := s + [optionId];
      forall i, j | 0 <= i < j < |t| ensures t[i] != t[j] {
        if j == |s| {
          assert t[i] == s[i];
        }
      }
    }
  }

  /** Ticking an unticked option while there is room, then unticking it,
      gives back the state before. */
  lemma ToggleTwice(st: State, optionId: string)
    requires optionId !in st.selectedOptions && |st.selectedOptions| < MaxSelected
    ensures ToggleOption(ToggleOption(st, optionId), optionId) == st
  {
    var s := st.selectedOptions;
    Seqs.WithoutAppend(s, [optionId], optionId);
    Seqs.WithoutAbsent(s, optionId);
    assert Seqs.Without([optionId], optionId) == [];
    assert s + [] == s;
  }
}
