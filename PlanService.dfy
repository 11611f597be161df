/** The saved-plan list: one serialized list of saved plans under one storage key,
    most recently saved first. */
module PlanService {
  import opened Types
  import opened Calendar
  import opened KeyValueStore

  const SavedPlansKey: string := "workoutSavedPlans"

  /** The entry that saving `plan` adds: its id is the plan title, a dash and the
      time of the first clock reading; `savedAt` is the second clock reading. */
  function NewSavedPlan(plan: WorkoutPlan, idTime: Instant, savedAt: Instant): (r: SavedWorkoutPlan)
    ensures r.plan == plan && r.savedAt == savedAt
    ensures |r.id| > |plan.planTitle| + 1 && r.id[..|plan.planTitle| + 1] == plan.planTitle + "-"
  {
    SavedWorkoutPlan(plan.planTitle + "-" + TimestampText(idTime), savedAt, plan)
  }

  /** Two saves of plans with one title get the same id only when their id clock
      readings are the same instant. */
  lemma NewSavedPlanIds(p: WorkoutPlan, q: WorkoutPlan, pTime: Instant, qTime: Instant, pSaved: Instant, qSaved: Instant)
    requires p.planTitle == q.planTitle
    ensures NewSavedPlan(p, pTime, pSaved).id == NewSavedPlan(q, qTime, qSaved).id <==> pTime == qTime
  {
    var n := |p.planTitle| + 1;
    var a := NewSavedPlan(p, pTime, pSaved).id;
    var b := NewSavedPlan(q, qTime, qSaved).id;
    assert a[n..] == TimestampText(pTime);
    assert b[n..] == TimestampText(qTime);
    if a == b {
      TimestampTextInjective(pTime, qTime);
    }
  }

  /** `savedPlans.filter(p => p.id !== id)`. */
  function Without(plans: seq<SavedWorkoutPlan>, id: string): (r: seq<SavedWorkoutPlan>)
    ensures |r| <= |plans|
    ensures forall k :: 0 <= k < |r| ==> r[k].id != id
  {
    if plans == [] then []
    else
      assert plans == [plans[0]] + plans[1..];
      (if plans[0].id != id then [plans[0]] else []) + Without(plans[1..], id)
  }

  /** Every entry with another id survives as often as it occurred; none with `id` does. */
  lemma {:induction false} WithoutCounts(plans: seq<SavedWorkoutPlan>, id: string, p: SavedWorkoutPlan)
    ensures multiset(Without(plans, id))[p] == if p.id == id then 0 else multiset(plans)[p]
  {
    if plans != [] {
      assert plans == [plans[0]] + plans[1..];
      WithoutCounts(plans[1..], id, p);
    }
  }

  /** Filtering distributes over concatenation, so the kept entries keep their relative order. */
  lemma {:induction false} WithoutConcat(a: seq<SavedWorkoutPlan>, b: seq<SavedWorkoutPlan>, id: string)
    ensures Without(a + b, id) == Without(a, id) + Without(b, id)
  {
    if a == [] {
      assert a + b == b;
    } else {
      var head := if a[0].id != id then [a[0]] else [];
      assert (a + b)[0] == a[0] && (a + b)[1..] == a[1..] + b;
      assert Without(a + b, id) == head + Without(a[1..] + b, id);
      WithoutConcat(a[1..], b, id);
      assert Without(a, id) == head + Without(a[1..], id);
    }
  }

  /** Deleting an id that no entry has leaves the list unchanged. */
  lemma {:induction false} WithoutAbsent(plans: seq<SavedWorkoutPlan>, id: string)
    requires forall k :: 0 <= k < |plans| ==> plans[k].id != id
    ensures Without(plans, id) == plans
  {
    if plans != [] {
      WithoutAbsent(plans[1..], id);
    }
  }

  /** Deleting the same id twice stores the same list as deleting it once. */
  lemma WithoutIdempotent(plans: seq<SavedWorkoutPlan>, id: string)
    ensures Without(Without(plans, id), id) == Without(plans, id)
  {
    WithoutAbsent(Without(plans, id), id);
  }

  /** Deleting a just-saved entry by its id removes it together with every older
      entry that happens to share the id; when none does, the list before the save comes back. */
  lemma DeleteAfterSave(plans: seq<SavedWorkoutPlan>, entry: SavedWorkoutPlan)
    ensures Without([entry] + plans, entry.id) == Without(plans, entry.id)
    ensures (forall k :: 0 <= k < |plans| ==> plans[k].id != entry.id) ==> Without([entry] + plans, entry.id) == plans
  {
    WithoutConcat([entry], plans, entry.id);
    if forall k :: 0 <= k < |plans| ==> plans[k].id != entry.id {
      WithoutAbsent(plans, entry.id);
    }
  }

  /** The comparison `isPlanSaved` makes: equal title and equal summary. */
  predicate SameTitleAndSummary(saved: SavedWorkoutPlan, plan: WorkoutPlan)
  {
    saved.plan.planTitle == plan.planTitle && saved.plan.weeklySummary == plan.weeklySummary
  }

  /** `savedPlans.some(...)` with that comparison. */
  function AnySame(plans: seq<SavedWorkoutPlan>, plan: WorkoutPlan): (r: bool)
    ensures r <==> exists k :: 0 <= k < |plans| && SameTitleAndSummary(plans[k], plan)
  {
    if plans == [] then false
    else SameTitleAndSummary(plans[0], plan) || AnySame(plans[1..], plan)
  }

  /** The saved-plan operations over the shared store. */
  class PlanRepository {
    const store: LocalStore
    const codec: Codec<SavedWorkoutPlan>

    ghost predicate Valid()
    {
      RoundTrips(codec)
    }

    constructor (store: LocalStore, codec: Codec<SavedWorkoutPlan>)
      requires RoundTrips(codec)
      ensures this.store == store && this.codec.encode == codec.encode && this.codec.decode == codec.decode
      ensures Valid()
    {
      this.store := store;
      this.codec := codec;
    }

    /** `getSavedPlans`: the stored list; empty when the key is missing or its text does not parse. */
    function GetSavedPlans(): (r: seq<SavedWorkoutPlan>)
      reads store
      ensures SavedPlansKey !in store.items ==> r == []
      ensures SavedPlansKey in store.items && codec.decode(store.items[SavedPlansKey]).None? ==> r == []
      ensures SavedPlansKey in store.items && store.items[SavedPlansKey] != "" && codec.decode(store.items[SavedPlansKey]).Some? ==>
                r == codec.decode(store.items[SavedPlansKey]).value
      ensures r == [] || (SavedPlansKey in store.items && codec.decode(store.items[SavedPlansKey]) == Some(r))
    {
      ReadList(store.GetItem(SavedPlansKey), codec)
    }

    /** `isPlanSaved`: false without a plan; otherwise whether some saved entry has
        the plan's title and summary. */
    function IsPlanSaved(currentPlan: Option<WorkoutPlan>): (r: bool)
      reads store
      ensures currentPlan.None? ==> !r
      ensures currentPlan.Some? ==>
        (r <==> exists k :: 0 <= k < |GetSavedPlans()| && SameTitleAndSummary(GetSavedPlans()[k], currentPlan.value))
    {
      match currentPlan
      case None => false
      case Some(plan) => AnySame(GetSavedPlans(), plan)
    }

    /** `saveWorkoutPlan`: reads the list, puts the new entry in front and writes the
        whole list back; the clock is read once for the id and once for `savedAt`. */
    method SaveWorkoutPlan(plan: WorkoutPlan, idTime: Instant, savedAt: Instant)
      requires Valid()
      modifies store
      ensures store.items == old(store.items)[SavedPlansKey := codec.encode([NewSavedPlan(plan, idTime, savedAt)] + old(GetSavedPlans()))]
      ensures GetSavedPlans() == [NewSavedPlan(plan, idTime, savedAt)] + old(GetSavedPlans())
      ensures GetSavedPlans()[0].plan == plan && GetSavedPlans()[0].id == plan.planTitle + "-" + TimestampText(idTime)
      ensures IsPlanSaved(Some(plan))
    {
      var savedPlans := GetSavedPlans();
      var newSavedPlan := NewSavedPlan(plan, idTime, savedAt);
      savedPlans := [newSavedPlan] + savedPlans;
      store.SetItem(SavedPlansKey, codec.encode(savedPlans));
      ReadWritten(codec, savedPlans);
      assert SameTitleAndSummary(GetSavedPlans()[0], plan);
    }

    /** `deleteSavedPlan`: writes back the list without every entry whose id is `id`;
        the list is written even when nothing was removed. */
    method DeleteSavedPlan(id: string)
      requires Valid()
      modifies store
      ensures store.items == old(store.items)[SavedPlansKey := codec.encode(Without(old(GetSavedPlans()), id))]
      ensures GetSavedPlans() == Without(old(GetSavedPlans()), id)
    {
      var savedPlans := GetSavedPlans();
      savedPlans := Without(savedPlans, id);
      store.SetItem(SavedPlansKey, codec.encode(savedPlans));
      ReadWritten(codec, savedPlans);
    }
  }
}
