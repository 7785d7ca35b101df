/** The goal tracker: goals with a category, a status and a progress percentage, the
    view-model that adds, edits, updates and deletes them, and the string-keyed filter over
    them. */
module Goals {
  import opened Lists
  import opened Identity

  // ----- Categories and statuses -----

  /** `GoalCategory`, in the order of its cases. */
  datatype GoalCategory = SelfCare | Therapy | Nutrition | Exercise | Social | Mindfulness | Recovery

  /** The category's raw value, the string the filter is keyed by. */
  function CategoryRaw(c: GoalCategory): string {
    match c
    case SelfCare => "self_care"
    case Therapy => "therapy"
    case Nutrition => "nutrition"
    case Exercise => "exercise"
    case Social => "social"
    case Mindfulness => "mindfulness"
    case Recovery => "recovery"
  }

  /** `GoalCategory.allCases.map { $0.rawValue }.contains(s)`. */
  predicate IsCategoryRaw(s: string) {
    exists c: GoalCategory :: CategoryRaw(c) == s
  }

  /** `GoalCategory(rawValue:)`. */
  function CategoryFromRaw(s: string): (r: Option<GoalCategory>)
    ensures r.Some? ==> CategoryRaw(r.value) == s
  {
    if s == "self_care" then Some(SelfCare)
    else if s == "therapy" then Some(Therapy)
    else if s == "nutrition" then Some(Nutrition)
    else if s == "exercise" then Some(Exercise)
    else if s == "social" then Some(Social)
    else if s == "mindfulness" then Some(Mindfulness)
    else if s == "recovery" then Some(Recovery)
    else None
  }

  /** Reading a category back from its raw value gives the category: the raw values are
      distinct, so a raw value names one category. */
  lemma CategoryRawRoundTrip(c: GoalCategory)
    ensures CategoryFromRaw(CategoryRaw(c)) == Some(c)
  {
  }

  /** A string is a raw value exactly when it reads back as a category. */
  lemma IsCategoryRawIff(s: string)
    ensures IsCategoryRaw(s) <==> CategoryFromRaw(s).Some?
  {
    if IsCategoryRaw(s) {
      var c: GoalCategory :| CategoryRaw(c) == s;
      CategoryRawRoundTrip(c);
    }
  }

  /** Two categories with the same raw value are the same category. */
  lemma CategoryRawInjective(c: GoalCategory, d: GoalCategory)
    ensures CategoryRaw(c) == CategoryRaw(d) ==> c == d
  {
    CategoryRawRoundTrip(c);
    CategoryRawRoundTrip(d);
  }

  /** The filter keys "all", "active" and "completed" are no category's raw value. */
  lemma KeywordsAreNotCategories()
    ensures !IsCategoryRaw("all") && !IsCategoryRaw("active") && !IsCategoryRaw("completed")
  {
    IsCategoryRawIff("all");
    IsCategoryRawIff("active");
    IsCategoryRawIff("completed");
  }

  /** `GoalStatus`. Its raw values only feed the status label, which is display text. */
  datatype GoalStatus = NotStarted | InProgress | Completed | Paused

  // ----- Goals -----

  datatype Goal = Goal(id: Uuid, title: string, description: string, category: GoalCategory,
                       targetDate: Option<Date>, status: GoalStatus, progressPercentage: int)

  /** The empty form: a fresh identifier and every other field at its default. */
  function BlankGoal(id: Uuid): Goal {
    Goal(id, [], [], SelfCare, None, NotStarted, 0)
  }

  predicate IsActive(g: Goal) {
    g.status == NotStarted || g.status == InProgress
  }

  /** `filteredGoals`: the goals the string `filter` selects, in their order. */
  function FilteredGoals(goals: seq<Goal>, filter: string): (r: seq<Goal>)
    ensures Subsequence(r, goals)
    ensures filter == "active" ==> forall g :: g in r <==> g in goals && IsActive(g)
    ensures filter == "completed" ==> forall g :: g in r <==> g in goals && g.status == Completed
    ensures forall c :: filter == CategoryRaw(c) ==> forall g :: g in r <==> g in goals && g.category == c
    ensures filter != "active" && filter != "completed" && !IsCategoryRaw(filter) ==> r == goals
  {
    KeywordsAreNotCategories();
    if filter == "active" then
      FilterSubsequence(goals, IsActive);
      Filter(goals, IsActive)
    else if filter == "completed" then
      var p := (g: Goal) => g.status == Completed;
      FilterSubsequence(goals, p);
      Filter(goals, p)
    else if IsCategoryRaw(filter) then
      var p := (g: Goal) => CategoryRaw(g.category) == filter;
      FilterSubsequence(goals, p);
      assert forall c, d :: CategoryRaw(d) == filter && CategoryRaw(c) == filter ==> c == d by {
        forall c, d { CategoryRawInjective(c, d); }
      }
      Filter(goals, p)
    else
      SubsequenceOfSelf(goals);
      goals
  }

  /** With the key "all", the one the screen starts with, every goal is shown. */
  lemma FilterAllShowsEverything(goals: seq<Goal>)
    ensures FilteredGoals(goals, "all") == goals
  {
    KeywordsAreNotCategories();
  }

  /** The active and the completed goals are disjoint and, with the paused ones, cover the list. */
  lemma FiltersPartition(goals: seq<Goal>, g: Goal)
    requires g in goals
    ensures g in FilteredGoals(goals, "active") || g in FilteredGoals(goals, "completed")
            || g.status == Paused
    ensures !(g in FilteredGoals(goals, "active") && g in FilteredGoals(goals, "completed"))
  {
  }

  /** `goals.firstIndex(where: { $0.id == id })`. */
  function IndexOfId(goals: seq<Goal>, id: Uuid): (r: Option<nat>)
    ensures r.Some? ==> r.value < |goals| && goals[r.value].id == id
    ensures r.Some? ==> forall j :: 0 <= j < r.value ==> goals[j].id != id
    ensures r.None? <==> forall j :: 0 <= j < |goals| ==> goals[j].id != id
  {
    FirstIndex(goals, (g: Goal) => g.id == id)
  }

  /** Replacing a goal by one with the same identifier moves no goal's first occurrence. */
  lemma IndexOfIdAfterReplace(goals: seq<Goal>, i: nat, g: Goal, id: Uuid)
    requires i < |goals| && g.id == goals[i].id
    ensures IndexOfId(goals[i := g], id) == IndexOfId(goals, id)
  {
    var before, after := IndexOfId(goals, id), IndexOfId(goals[i := g], id);
    assert forall j :: 0 <= j < |goals| ==> (goals[i := g][j].id == id <==> goals[j].id == id);
    if before.Some? && after.Some? {
      assert !(before.value < after.value) && !(after.value < before.value);
    }
  }

  /** `addOrUpdateGoal` on the list: the form replaces the first goal with its identifier, or is
      appended when there is none. */
  function Upserted(goals: seq<Goal>, g: Goal): (r: seq<Goal>)
    ensures IndexOfId(goals, g.id).Some? ==> |r| == |goals|
    ensures IndexOfId(goals, g.id).None? ==> r == goals + [g]
    ensures IndexOfId(r, g.id).Some? && r[IndexOfId(r, g.id).value] == g
    ensures forall j :: 0 <= j < |goals| && Some(j) != IndexOfId(goals, g.id) ==> r[j] == goals[j]
  {
    match IndexOfId(goals, g.id)
    case Some(i) =>
      IndexOfIdAfterReplace(goals, i, g, g.id);
      goals[i := g]
    case None =>
      var r := goals + [g];
      assert r[|goals|].id == g.id;
      r
  }

  /** Saving the same form twice is saving it once. */
  lemma UpsertIdempotent(goals: seq<Goal>, g: Goal)
    ensures Upserted(Upserted(goals, g), g) == Upserted(goals, g)
  {
    var once := Upserted(goals, g);
    var i := IndexOfId(once, g.id).value;
    assert once[i := g] == once;
  }

  predicate DistinctIds(goals: seq<Goal>) {
    forall i, j :: 0 <= i < j < |goals| ==> goals[i].id != goals[j].id
  }

  /** Adding or updating keeps the identifiers distinct. */
  lemma UpsertKeepsDistinctIds(goals: seq<Goal>, g: Goal)
    requires DistinctIds(goals)
    ensures DistinctIds(Upserted(goals, g))
  {
    var r := Upserted(goals, g);
    match IndexOfId(goals, g.id)
    case Some(i) =>
      forall a, b | 0 <= a < b < |r| ensures r[a].id != r[b].id {
        assert r[a].id == goals[a].id && r[b].id == goals[b].id;
      }
    case None =>
      assert r == goals + [g];
  }

  /** `deleteGoal` on the list: every goal with the identifier goes, the others stay in order. */
  function WithoutId(goals: seq<Goal>, id: Uuid): (r: seq<Goal>)
    ensures Subsequence(r, goals)
    ensures forall g :: g in r <==> g in goals && g.id != id
    ensures forall k :: 0 <= k < |r| ==> r[k].id != id
  {
    var p := (g: Goal) => g.id != id;
    FilterSubsequence(goals, p);
    Filter(goals, p)
  }

  /** Deleting keeps the identifiers distinct. */
  lemma WithoutIdKeepsDistinctIds(goals: seq<Goal>, id: Uuid)
    requires DistinctIds(goals)
    ensures DistinctIds(WithoutId(goals, id))
  {
    SubsequenceDistinctIds(WithoutId(goals, id), goals);
  }

  lemma {:induction false} SubsequenceDistinctIds(xs: seq<Goal>, ys: seq<Goal>)
    requires Subsequence(xs, ys) && DistinctIds(ys)
    ensures DistinctIds(xs)
    decreases |ys|
  {
    if xs != [] {
      assert DistinctIds(ys[1..]);
      if xs[0] == ys[0] {
        SubsequenceDistinctIds(xs[1..], ys[1..]);
        SubsequenceElements(xs[1..], ys[1..]);
        forall j | 0 < j < |xs| ensures xs[0].id != xs[j].id {
          assert xs[j] == xs[1..][j - 1];
          assert xs[j] in ys[1..];
          var m :| 0 <= m < |ys[1..]| && ys[1..][m] == xs[j];
          assert ys[m + 1] == xs[j];
        }
      } else {
        SubsequenceDistinctIds(xs, ys[1..]);
      }
    }
  }

  /** Deleting the same goal twice is deleting it once. */
  lemma DeleteIdempotent(goals: seq<Goal>, id: Uuid)
    ensures WithoutId(WithoutId(goals, id), id) == WithoutId(goals, id)
  {
    var once := WithoutId(goals, id);
    FilterAll(once, (g: Goal) => g.id != id);
  }

  // ----- Status and progress -----

  /** `updateStatus` on the goal it finds: the status is set; completing forces the progress to
      100, going back to not started forces it to 0, and the other statuses leave it alone. */
  function WithStatus(g: Goal, s: GoalStatus): (r: Goal)
    ensures r == g.(status := s, progressPercentage := r.progressPercentage)
    ensures s == Completed ==> r.progressPercentage == 100
    ensures s == NotStarted ==> r.progressPercentage == 0
    ensures s == InProgress || s == Paused ==> r.progressPercentage == g.progressPercentage
  {
    var r := g.(status := s);
    if s == Completed then r.(progressPercentage := 100)
    else if s == NotStarted then r.(progressPercentage := 0)
    else r
  }

  /** `updateProgress` on the goal it finds: the value is stored as given, with no clamping;
      exactly 100 completes the goal, and any other positive value starts a goal that had not
      started. */
  function WithProgress(g: Goal, p: int): (r: Goal)
    ensures r == g.(progressPercentage := p, status := r.status)
    ensures p == 100 ==> r.status == Completed
    ensures p != 100 && p > 0 && g.status == NotStarted ==> r.status == InProgress
    ensures p != 100 && !(p > 0 && g.status == NotStarted) ==> r.status == g.status
  {
    var r := g.(progressPercentage := p);
    if p == 100 then r.(status := Completed)
    else if p > 0 && g.status == NotStarted then r.(status := InProgress)
    else r
  }

  /** A status update keeps the progress within 0 to 100 when it was there. */
  lemma WithStatusKeepsRange(g: Goal, s: GoalStatus)
    requires 0 <= g.progressPercentage <= 100
    ensures 0 <= WithStatus(g, s).progressPercentage <= 100
  {
  }

  /** The completion checkbox as it acts on the stored goal `x`, decided by the status of the
      goal `shown` on the card: a completed goal goes back to not started at 0, any other goal
      is completed at 100. */
  function Checked(shown: Goal, x: Goal): (r: Goal)
    ensures shown.status == Completed ==> r == x.(status := NotStarted, progressPercentage := 0)
    ensures shown.status != Completed ==> r == x.(status := Completed, progressPercentage := 100)
  {
    if shown.status == Completed then WithProgress(WithStatus(x, NotStarted), 0)
    else WithProgress(x, 100)
  }

  /** Ticking the checkbox twice on an up-to-date card restores a goal that was completed at 100
      or not started at 0. */
  lemma CheckTwice(g: Goal)
    requires (g.status == Completed && g.progressPercentage == 100)
          || (g.status == NotStarted && g.progressPercentage == 0)
    ensures Checked(Checked(g, g), Checked(g, g)) == g
  {
  }

  /** The toast text of `showCompletionToast`. */
  const CompletionMessage := "Way to go!"

  // ----- The view-model -----

  class GoalViewModel {
    var goals: seq<Goal>
    var filter: string
    var showForm: bool
    var editingGoal: Option<Goal>
    var formData: Goal
    var showToast: bool
    var toastMessage: string

    /** The goals carry distinct identifiers. */
    ghost predicate Valid()
      reads this
    {
      DistinctIds(goals)
    }

    /** A fresh view-model; `formId` is the identifier `UUID()` gives the blank form. */
    constructor (formId: Uuid)
      ensures Valid()
      ensures goals == [] && filter == "all" && !showForm && editingGoal == None
      ensures formData == BlankGoal(formId) && !showToast && toastMessage == []
    {
      goals := [];
      filter := "all";
      showForm := false;
      editingGoal := None;
      formData := BlankGoal(formId);
      showToast := false;
      toastMessage := [];
    }

    /** The goals the current filter shows. */
    function Shown(): seq<Goal>
      reads this
    {
      FilteredGoals(goals, filter)
    }

    /** Clear the form (with the fresh identifier `UUID()` supplies) and close it. */
    method ResetForm(freshId: Uuid)
      modifies this`formData, this`editingGoal, this`showForm
      ensures formData == BlankGoal(freshId) && editingGoal == None && !showForm
    {
      formData, editingGoal, showForm := BlankGoal(freshId), None, false;
    }

    /** Save the form: replace the goal with its identifier or append it, then reset the form. */
    method AddOrUpdateGoal(freshId: Uuid)
      requires Valid()
      modifies this`goals, this`formData, this`editingGoal, this`showForm
      ensures Valid()
      ensures goals == Upserted(old(goals), old(formData))
      ensures formData == BlankGoal(freshId) && editingGoal == None && !showForm
    {
      UpsertKeepsDistinctIds(goals, formData);
      goals := Upserted(goals, formData);
      ResetForm(freshId);
    }

    /** Open the form on an existing goal. */
    method EditGoal(goal: Goal)
      modifies this`editingGoal, this`formData, this`showForm
      ensures editingGoal == Some(goal) && formData == goal && showForm
    {
      editingGoal, formData, showForm := Some(goal), goal, true;
    }

    /** `showCompletionToast`: show "Way to go!". */
    method ShowCompletionToast()
      modifies this`toastMessage, this`showToast
      ensures toastMessage == CompletionMessage && showToast
    {
      toastMessage, showToast := CompletionMessage, true;
    }

    /** The delayed closure that hides the toast again. */
    method HideToast()
      modifies this`showToast
      ensures !showToast
    {
      showToast := false;
    }

    /** Set the status of the first goal with the identifier of `goal`; nothing happens when
        there is none. Completing a goal shows the toast. */
    method UpdateStatus(goal: Goal, newStatus: GoalStatus)
      requires Valid()
      modifies this`goals, this`toastMessage, this`showToast
      ensures Valid()
      ensures IndexOfId(old(goals), goal.id).None? ==> goals == old(goals)
      ensures IndexOfId(old(goals), goal.id).Some? ==>
                var i := IndexOfId(old(goals), goal.id).value;
                goals == old(goals)[i := WithStatus(old(goals)[i], newStatus)]
      ensures IndexOfId(old(goals), goal.id).Some? && newStatus == Completed ==>
                toastMessage == CompletionMessage && showToast
      ensures !(IndexOfId(old(goals), goal.id).Some? && newStatus == Completed) ==>
                toastMessage == old(toastMessage) && showToast == old(showToast)
    {
      var found := IndexOfId(goals, goal.id);
      if found.Some? {
        var i := found.value;
        goals := goals[i := WithStatus(goals[i], newStatus)];
        if newStatus == Completed {
          ShowCompletionToast();
        }
      }
    }

    /** Set the progress of the first goal with the identifier of `goal`; nothing happens when
        there is none. Reaching 100 completes the goal and shows the toast. */
    method UpdateProgress(goal: Goal, newProgress: int)
      requires Valid()
      modifies this`goals, this`toastMessage, this`showToast
      ensures Valid()
      ensures IndexOfId(old(goals), goal.id).None? ==> goals == old(goals)
      ensures IndexOfId(old(goals), goal.id).Some? ==>
                var i := IndexOfId(old(goals), goal.id).value;
                goals == old(goals)[i := WithProgress(old(goals)[i], newProgress)]
      ensures IndexOfId(old(goals), goal.id).Some? && newProgress == 100 ==>
                toastMessage == CompletionMessage && showToast
      ensures !(IndexOfId(old(goals), goal.id).Some? && newProgress == 100) ==>
                toastMessage == old(toastMessage) && showToast == old(showToast)
    {
      var found := IndexOfId(goals, goal.id);
      if found.Some? {
        var i := found.value;
        goals := goals[i := WithProgress(goals[i], newProgress)];
        if newProgress == 100 {
          ShowCompletionToast();
        }
      }
    }

    /** Remove every goal with the identifier of `goal`. */
    method DeleteGoal(goal: Goal)
      requires Valid()
      modifies this`goals
      ensures Valid()
      ensures goals == WithoutId(old(goals), goal.id)
    {
      WithoutIdKeepsDistinctIds(goals, goal.id);
      goals := WithoutId(goals, goal.id);
    }

    /** The completion checkbox on the card showing `goal`: a completed goal is set back to not
        started and then to progress 0; any other goal is set to progress 100. */
    method ToggleCompletion(goal: Goal)
      requires Valid()
      modifies this`goals, this`toastMessage, this`showToast
      ensures Valid()
      ensures IndexOfId(old(goals), goal.id).None? ==> goals == old(goals)
      ensures IndexOfId(old(goals), goal.id).Some? ==>
                var i := IndexOfId(old(goals), goal.id).value;
                goals == old(goals)[i := Checked(goal, old(goals)[i])]
      ensures IndexOfId(old(goals), goal.id).Some? && goal.status != Completed ==>
                toastMessage == CompletionMessage && showToast
      ensures !(IndexOfId(old(goals), goal.id).Some? && goal.status != Completed) ==>
                toastMessage == old(toastMessage) && showToast == old(showToast)
    {
      if goal.status == Completed {
        UpdateStatus(goal, NotStarted);
        ghost var found := IndexOfId(old(goals), goal.id);
        if found.Some? {
          IndexOfIdAfterReplace(old(goals), found.value, WithStatus(old(goals)[found.value], NotStarted), goal.id);
        }
        UpdateProgress(goal, 0);
      } else {
        UpdateProgress(goal, 100);
      }
    }
  }
}
