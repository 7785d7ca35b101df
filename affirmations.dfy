/** Daily affirmations: the affirmation record with its category, the filter picker, and the
    view-model that loads, creates, favourites, uses and filters affirmations. */
module Affirmations {
  import opened Lists
  import opened Identity

  // ----- Categories and filters -----

  /** `Affirmation.CategoryKey`. */
  datatype CategoryKey = SelfLove | BodyAcceptance | Strength | Recovery | Mindfulness | SelfWorth

  function KeyRaw(k: CategoryKey): string {
    match k
    case SelfLove => "self_love"
    case BodyAcceptance => "body_acceptance"
    case Strength => "strength"
    case Recovery => "recovery"
    case Mindfulness => "mindfulness"
    case SelfWorth => "self_worth"
  }

  /** `AffirmationFilter`: everything, the favourites, or one case per category. */
  datatype AffirmationFilter =
    | All | Favorites
    | SelfLove | BodyAcceptance | Strength | Recovery | Mindfulness | SelfWorth

  function FilterRaw(f: AffirmationFilter): string {
    match f
    case All => "all"
    case Favorites => "favorites"
    case SelfLove => "self_love"
    case BodyAcceptance => "body_acceptance"
    case Strength => "strength"
    case Recovery => "recovery"
    case Mindfulness => "mindfulness"
    case SelfWorth => "self_worth"
  }

  /** The category a filter case is named after. */
  function FilterKey(f: AffirmationFilter): (r: Option<CategoryKey>)
    ensures r.None? <==> f == All || f == Favorites
  {
    match f
    case All => None
    case Favorites => None
    case SelfLove => Some(CategoryKey.SelfLove)
    case BodyAcceptance => Some(CategoryKey.BodyAcceptance)
    case Strength => Some(CategoryKey.Strength)
    case Recovery => Some(CategoryKey.Recovery)
    case Mindfulness => Some(CategoryKey.Mindfulness)
    case SelfWorth => Some(CategoryKey.SelfWorth)
  }

  /** `CategoryKey(rawValue:)`. */
  function KeyFromRaw(s: string): (r: Option<CategoryKey>)
    ensures r.Some? ==> KeyRaw(r.value) == s
  {
    if s == "self_love" then Some(CategoryKey.SelfLove)
    else if s == "body_acceptance" then Some(CategoryKey.BodyAcceptance)
    else if s == "strength" then Some(CategoryKey.Strength)
    else if s == "recovery" then Some(CategoryKey.Recovery)
    else if s == "mindfulness" then Some(CategoryKey.Mindfulness)
    else if s == "self_worth" then Some(CategoryKey.SelfWorth)
    else None
  }

  /** A category's raw value reads back as that category, so no two categories share one. */
  lemma KeyRawInjective(k: CategoryKey, j: CategoryKey)
    ensures KeyFromRaw(KeyRaw(k)) == Some(k)
    ensures KeyRaw(k) == KeyRaw(j) ==> k == j
  {
    assert KeyFromRaw(KeyRaw(j)) == Some(j);
  }

  /** Every category filter has the raw value of the category it is named after, and the other
      two filters have no category's raw value: the raw-value comparison of the filter selects
      exactly one category. */
  lemma FilterRawMatchesKey(f: AffirmationFilter, k: CategoryKey)
    ensures KeyRaw(k) == FilterRaw(f) <==> FilterKey(f) == Some(k)
  {
    KeyRawInjective(k, k);
    assert KeyFromRaw(FilterRaw(f)) == FilterKey(f);
  }

  // ----- Affirmations -----

  /** An affirmation; two affirmations are equal when every field is (synthesised `Equatable`). */
  datatype Affirmation = Affirmation(id: Uuid, text: string, category: CategoryKey,
                                     isFavorite: bool, timesUsed: int)

  /** The text of the `k`-th built-in affirmation. */
  function SampleText(k: nat): string {
    if k == 0 then "I am worthy of love and respect exactly as I am"
    else if k == 1 then "My body is my home and I treat it with kindness"
    else if k == 2 then "I am stronger than my struggles and capable of healing"
    else if k == 3 then "Every day I take steps toward wellness and recovery"
    else if k == 4 then "I breathe deeply and find peace in this moment"
    else "My worth is not determined by my appearance"
  }

  /** The category of the `k`-th built-in affirmation: one per category, in the order of the
      cases. */
  function SampleKey(k: nat): CategoryKey {
    if k == 0 then CategoryKey.SelfLove
    else if k == 1 then CategoryKey.BodyAcceptance
    else if k == 2 then CategoryKey.Strength
    else if k == 3 then CategoryKey.Recovery
    else if k == 4 then CategoryKey.Mindfulness
    else CategoryKey.SelfWorth
  }

  /** The six built-in affirmations with the identifiers drawn for them. */
  function Samples(ids: seq<Uuid>): (r: seq<Affirmation>)
    requires |ids| == 6
    ensures |r| == 6
    ensures forall k :: 0 <= k < 6 ==> r[k].id == ids[k] && !r[k].isFavorite && r[k].timesUsed == 0
    ensures forall i, j :: 0 <= i < j < 6 ==> r[i].category != r[j].category
  {
    seq(6, k requires 0 <= k < 6 => Affirmation(ids[k], SampleText(k), SampleKey(k), false, 0))
  }

  /** Whether the filter shows affirmation `a`. */
  predicate Shows(f: AffirmationFilter, a: Affirmation) {
    match f
    case All => true
    case Favorites => a.isFavorite
    case _ => KeyRaw(a.category) == FilterRaw(f)
  }

  /** `filteredAffirmations`: the affirmations the filter selects, in their order. */
  function FilteredAffirmations(xs: seq<Affirmation>, f: AffirmationFilter): (r: seq<Affirmation>)
    ensures Subsequence(r, xs)
    ensures f == All ==> r == xs
    ensures f == Favorites ==> forall a :: a in r <==> a in xs && a.isFavorite
    ensures f != All && f != Favorites ==>
              forall a :: a in r <==> a in xs && KeyRaw(a.category) == FilterRaw(f)
    ensures forall a :: multiset(r)[a] == if Shows(f, a) then multiset(xs)[a] else 0
  {
    match f
    case All =>
      SubsequenceOfSelf(xs);
      xs
    case Favorites =>
      var p := (a: Affirmation) => a.isFavorite;
      FilterSubsequence(xs, p);
      Filter(xs, p)
    case _ =>
      var p := (a: Affirmation) => KeyRaw(a.category) == FilterRaw(f);
      FilterSubsequence(xs, p);
      Filter(xs, p)
  }

  /** A category filter shows exactly the affirmations of its category. */
  lemma FilteredByCategory(xs: seq<Affirmation>, f: AffirmationFilter, a: Affirmation)
    requires FilterKey(f).Some?
    ensures a in FilteredAffirmations(xs, f) <==> a in xs && a.category == FilterKey(f).value
  {
    FilterRawMatchesKey(f, a.category);
  }

  /** `affirmations.firstIndex(of: a)`: the first element equal to `a` on every field. */
  function IndexOf(xs: seq<Affirmation>, a: Affirmation): (r: Option<nat>)
    ensures r.Some? ==> r.value < |xs| && xs[r.value] == a
    ensures r.Some? ==> a !in xs[..r.value]
    ensures r.None? <==> a !in xs
  {
    var r := FirstIndex(xs, (x: Affirmation) => x == a);
    assert r.Some? ==> forall j :: 0 <= j < r.value ==> xs[..r.value][j] == xs[j];
    r
  }

  /** The affirmation with its favourite mark flipped. */
  function FavoriteFlipped(a: Affirmation): (r: Affirmation)
    ensures r.isFavorite == !a.isFavorite && r.(isFavorite := a.isFavorite) == a
  {
    a.(isFavorite := !a.isFavorite)
  }

  /** The affirmation used once more. */
  function UsedOnce(a: Affirmation): (r: Affirmation)
    ensures r.timesUsed == a.timesUsed + 1 && r.(timesUsed := a.timesUsed) == a
  {
    a.(timesUsed := a.timesUsed + 1)
  }

  /** Favouriting the displayed affirmation and then the updated one restores the list, when the
      updated value does not already occur before the changed position. */
  lemma FavoriteTwice(xs: seq<Affirmation>, a: Affirmation)
    requires IndexOf(xs, a).Some?
    requires FavoriteFlipped(a) !in xs[..IndexOf(xs, a).value]
    ensures var i := IndexOf(xs, a).value;
            var ys := xs[i := FavoriteFlipped(a)];
            IndexOf(ys, FavoriteFlipped(a)) == Some(i)
            && ys[i := FavoriteFlipped(FavoriteFlipped(a))] == xs
  {
    var i := IndexOf(xs, a).value;
    var ys := xs[i := FavoriteFlipped(a)];
    forall j | 0 <= j < i ensures ys[j] != FavoriteFlipped(a) {
      assert ys[j] == xs[..i][j];
    }
    forall v | i < v <= |ys| ensures FavoriteFlipped(a) in ys[..v] {
      assert ys[..v][i] == ys[i];
    }
    assert FavoriteFlipped(a) in ys by { assert ys[i] == FavoriteFlipped(a); }
    assert IndexOf(ys, FavoriteFlipped(a)).value == i;
    assert FavoriteFlipped(FavoriteFlipped(a)) == a;
  }

  // ----- The view-model -----

  class AffirmationsViewModel {
    var affirmations: seq<Affirmation>
    var loading: bool
    var showForm: bool
    var currentAffirmation: Option<Affirmation>
    var filter: AffirmationFilter
    var formText: string
    var formCategory: Option<CategoryKey>
    /** The six samples, built once with the identifiers drawn when the view-model is made. */
    const sampleAffirmations: seq<Affirmation>

    /** There are six samples. */
    predicate Valid() {
      |sampleAffirmations| == 6
    }

    /** A fresh view-model, still loading; `sampleIds` are the identifiers `UUID()` gives the
        six samples. */
    constructor (sampleIds: seq<Uuid>)
      requires |sampleIds| == 6
      ensures Valid() && sampleAffirmations == Samples(sampleIds)
      ensures affirmations == [] && loading && !showForm && currentAffirmation == None
      ensures filter == All && formText == [] && formCategory == None
    {
      sampleAffirmations := Samples(sampleIds);
      affirmations := [];
      loading := true;
      showForm := false;
      currentAffirmation := None;
      filter := All;
      formText := [];
      formCategory := None;
    }

    /** The affirmations the current filter shows. */
    function Shown(): seq<Affirmation>
      reads this
    {
      FilteredAffirmations(affirmations, filter)
    }

    /** `loadData` once its delay is over: the samples when the list is empty, else the list as
        it is; loading has finished. */
    method LoadData()
      modifies this`affirmations, this`loading
      ensures old(affirmations) == [] ==> affirmations == sampleAffirmations
      ensures old(affirmations) != [] ==> affirmations == old(affirmations)
      ensures !loading
    {
      loading := true;
      if affirmations == [] {
        affirmations := sampleAffirmations;
      }
      loading := false;
    }

    /** Clear the form. */
    method ResetForm()
      modifies this`formText, this`formCategory
      ensures formText == [] && formCategory == None
    {
      formText, formCategory := [], None;
    }

    /** Create an affirmation from the form (with the identifier `UUID()` supplies), when a
        category is chosen and the text is not empty; otherwise nothing happens. */
    method CreateAffirmation(freshId: Uuid)
      modifies this`affirmations, this`formText, this`formCategory, this`showForm
      ensures old(formCategory).None? || old(formText) == [] ==>
                affirmations == old(affirmations) && formText == old(formText)
                && formCategory == old(formCategory) && showForm == old(showForm)
      ensures old(formCategory).Some? && old(formText) != [] ==>
                affirmations == old(affirmations)
                                + [Affirmation(freshId, old(formText), old(formCategory).value, false, 0)]
                && formText == [] && formCategory == None && !showForm
    {
      if formCategory.None? || formText == [] {
        return;
      }
      var item := Affirmation(freshId, formText, formCategory.value, false, 0);
      affirmations := affirmations + [item];
      ResetForm();
      showForm := false;
    }

    /** Flip the favourite mark of the first affirmation equal to `a`; nothing happens when
        there is none. */
    method ToggleFavorite(a: Affirmation)
      modifies this`affirmations
      ensures IndexOf(old(affirmations), a).None? ==> affirmations == old(affirmations)
      ensures IndexOf(old(affirmations), a).Some? ==>
                affirmations == old(affirmations)[IndexOf(old(affirmations), a).value := FavoriteFlipped(a)]
    {
      var found := IndexOf(affirmations, a);
      if found.Some? {
        affirmations := affirmations[found.value := FavoriteFlipped(affirmations[found.value])];
      }
    }

    /** Count one more use of the first affirmation equal to `a` and make it the current one;
        nothing happens when there is none. */
    method UseAffirmation(a: Affirmation)
      modifies this`affirmations, this`currentAffirmation
      ensures IndexOf(old(affirmations), a).None? ==>
                affirmations == old(affirmations) && currentAffirmation == old(currentAffirmation)
      ensures IndexOf(old(affirmations), a).Some? ==>
                affirmations == old(affirmations)[IndexOf(old(affirmations), a).value := UsedOnce(a)]
                && currentAffirmation == Some(UsedOnce(a))
    {
      var found := IndexOf(affirmations, a);
      if found.Some? {
        var i := found.value;
        affirmations := affirmations[i := UsedOnce(affirmations[i])];
        currentAffirmation := Some(affirmations[i]);
      }
    }

    /** Append the six samples. */
    method CreateSampleAffirmations()
      requires Valid()
      modifies this`affirmations
      ensures affirmations == old(affirmations) + sampleAffirmations
      ensures |affirmations| == |old(affirmations)| + 6 && affirmations[..|old(affirmations)|] == old(affirmations)
    {
      affirmations := affirmations + sampleAffirmations;
    }
  }
}
