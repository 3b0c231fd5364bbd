/**
 * The pre-generated catalogue (src/data/pregenerated_loader.py): finished
 * encouragement messages, each with an id and a category, a greeting chosen
 * by the hour, and a random pick that avoids repeating an id until every
 * milestone has been shown once. The JSON file becomes the list of items the
 * loader is built from; the clock's hour and the random number become
 * arguments.
 */
module PregeneratedLoading {
  import opened Wrappers
  import opened Text
  import opened Grouping
  import opened Weighting
  import Prompts

  const MorningGreeting := "早安\U{FF01}\U{2600}\U{FE0F}\n"
  const NoonGreeting := "午安\U{FF01}\U{1F4AB}\n"
  const AfternoonGreeting := "下午好\U{FF01}\U{1F31F}\n"
  const EveningGreeting := "晚上好\U{FF01}\U{1F319}\n"

  /** The greeting line put in front of a message: one per daytime period,
      none from 22:00 to 05:59 (nor for an hour outside 0-23). */
  function GreetingFor(hour: int): (g: string)
    ensures g == [] <==> hour < 6 || 22 <= hour
    ensures g != [] ==> g[|g| - 1] == '\n' && '\n' !in g[..|g| - 1]
    ensures g == MorningGreeting <==> 6 <= hour < 11
    ensures g == NoonGreeting <==> 11 <= hour < 14
    ensures g == AfternoonGreeting <==> 14 <= hour < 18
    ensures g == EveningGreeting <==> 18 <= hour < 22
  {
    if 6 <= hour < 11 then MorningGreeting
    else if 11 <= hour < 14 then NoonGreeting
    else if 14 <= hour < 18 then AfternoonGreeting
    else if 18 <= hour < 22 then EveningGreeting
    else ""
  }

  /** The greeting periods agree with the rephrasing templates of
      `get_prompt_for_time` from 06:00 to 21:59; from 22:00 on the evening
      template still applies but no greeting is added. The time label of
      `format_time` is a different split: its morning runs to noon. */
  lemma GreetingMatchesPrompt(hour: int)
    ensures GreetingFor(hour) == MorningGreeting <==> Prompts.PromptForTime(hour) == Prompts.MorningPrompt
    ensures GreetingFor(hour) == NoonGreeting <==> Prompts.PromptForTime(hour) == Prompts.NoonPrompt
    ensures GreetingFor(hour) == AfternoonGreeting <==> Prompts.PromptForTime(hour) == Prompts.AfternoonPrompt
    ensures GreetingFor(hour) == EveningGreeting <==> Prompts.PromptForTime(hour) == Prompts.EveningPrompt && 18 <= hour < 22
    ensures GreetingFor(hour) == [] <==> Prompts.PeriodLabel(hour) == Prompts.LateNightLabel
    ensures hour == 11 ==> GreetingFor(hour) == NoonGreeting && Prompts.PeriodLabel(hour) == Prompts.EarlyLabel
  {
  }

  /** The openings that mark a message as already decorated. */
  const LeadingEmojis: seq<string> := [
    "\U{2600}\U{FE0F}", "\U{1F4AB}", "\U{1F31F}", "\U{1F319}", "\U{1F4AA}", "\U{1F680}", "\U{1F49D}"
  ]

  /** Whether the message, once stripped of surrounding whitespace, opens
      with one of `LeadingEmojis`. */
  predicate HasLeadingEmoji(message: string) {
    exists k :: 0 <= k < |LeadingEmojis| && StartsWith(Strip(message), LeadingEmojis[k])
  }

  /** One entry of the JSON file. */
  datatype PregeneratedMilestone = PregeneratedMilestone(id: int, category: string, original: string, message: string)
  {
    /** `get_message_with_greeting(hour)`: the message, preceded by the
        greeting of the hour unless it already opens with an emoji. The
        message itself always comes through unchanged at the end. */
    function MessageWithGreeting(hour: int): (r: string)
      ensures |r| >= |message| && r[|r| - |message|..] == message
      ensures r == message <==> HasLeadingEmoji(message) || GreetingFor(hour) == []
      ensures r != message ==> r[..|r| - |message|] == GreetingFor(hour)
    {
      if HasLeadingEmoji(message) then message
      else
        assert (GreetingFor(hour) + message)[|GreetingFor(hour)|..] == message;
        GreetingFor(hour) + message
    }
  }

  function ItemCategory(m: PregeneratedMilestone): string {
    m.category
  }

  /** The ids occurring in `items`. */
  function Ids(items: seq<PregeneratedMilestone>): (ids: set<int>)
    ensures forall m :: m in items ==> m.id in ids
  {
    if items == [] then {}
    else
      var init := items[..|items| - 1];
      assert forall m :: m in items ==> m in init || m == items[|items| - 1] by {
        assert items == init + [items[|items| - 1]];
      }
      Ids(init) + {items[|items| - 1].id}
  }

  /** Every id in `Ids(items)` belongs to some item. */
  lemma {:induction false} IdsOwned(items: seq<PregeneratedMilestone>, x: int)
    requires x in Ids(items)
    ensures exists i :: 0 <= i < |items| && items[i].id == x
  {
    var init := items[..|items| - 1];
    if x != items[|items| - 1].id {
      IdsOwned(init, x);
      var i :| 0 <= i < |init| && init[i].id == x;
      assert items[i] == init[i];
    }
  }

  predicate UniqueIds(items: seq<PregeneratedMilestone>) {
    forall i, j :: 0 <= i < j < |items| ==> items[i].id != items[j].id
  }

  lemma {:induction false} UniqueIdsCount(items: seq<PregeneratedMilestone>)
    requires UniqueIds(items)
    ensures |Ids(items)| == |items|
  {
    if items != [] {
      var init := items[..|items| - 1];
      var last := items[|items| - 1];
      UniqueIdsCount(init);
      if last.id in Ids(init) {
        IdsOwned(init, last.id);
      }
    }
  }

  lemma {:induction false} SubsetSize(a: set<int>, b: set<int>)
    requires a <= b
    ensures |a| <= |b|
  {
    assert a * b == a;
    assert |b - a| == |b| - |a * b|;
  }

  /** `[m for m in pool if m.id not in used]`. */
  function Unseen(pool: seq<PregeneratedMilestone>, used: set<int>): (avail: seq<PregeneratedMilestone>)
    ensures |avail| <= |pool|
    ensures forall m :: m in avail <==> m in pool && m.id !in used
  {
    if pool == [] then []
    else
      var last := pool[|pool| - 1];
      assert forall m :: m in pool <==> m in pool[..|pool| - 1] || m == last by {
        assert pool == pool[..|pool| - 1] + [last];
      }
      Unseen(pool[..|pool| - 1], used) + (if last.id in used then [] else [last])
  }

  /** The loader's index over `ms`: the category dict groups the milestones
      by category, and its keys are in the order the categories first occur. */
  ghost predicate Indexed(ms: seq<PregeneratedMilestone>, cats: map<string, seq<PregeneratedMilestone>>, order: seq<string>) {
    Grouped(ms, ItemCategory, cats, order) && order == FirstSeen(KeysOf(ms, ItemCategory))
  }

  /** Every listed category has at least one milestone. */
  lemma BucketsNonEmpty(ms: seq<PregeneratedMilestone>, cats: map<string, seq<PregeneratedMilestone>>, order: seq<string>, c: string)
    requires Indexed(ms, cats, order) && c in cats
    ensures cats[c] != []
  {
    var i :| 0 <= i < |ms| && KeysOf(ms, ItemCategory)[i] == c;
    assert ms[i] in cats[c];
  }

  /** Appending an item of a known category to the list and to its bucket
      keeps the index exact. */
  lemma IndexedAppendKnown(ms: seq<PregeneratedMilestone>, cats: map<string, seq<PregeneratedMilestone>>, order: seq<string>,
                           item: PregeneratedMilestone)
    requires Indexed(ms, cats, order) && item.category in cats
    ensures Indexed(ms + [item], cats[item.category := cats[item.category] + [item]], order)
  {
    KeysAppend(ms, item, ms + [item]);
    FirstSeenAppend(KeysOf(ms, ItemCategory), item.category);
    GroupedAppend(ms, ItemCategory, cats, order, item);
  }

  /** An item of a new category gets a bucket of its own, and the category
      goes to the end of the key order. */
  lemma IndexedAppendNew(ms: seq<PregeneratedMilestone>, cats: map<string, seq<PregeneratedMilestone>>, order: seq<string>,
                         item: PregeneratedMilestone)
    requires Indexed(ms, cats, order) && item.category !in cats
    ensures Indexed(ms + [item], cats[item.category := [item]], order + [item.category])
  {
    var c := item.category;
    KeysAppend(ms, item, ms + [item]);
    FirstSeenAppend(KeysOf(ms, ItemCategory), c);
    GroupedNewKey(ms, ItemCategory, cats, order, c);
    GroupedAppend(ms, ItemCategory, cats[c := []], order + [c], item);
    FirstBucket(cats, item);
  }

  lemma FirstBucket(cats: map<string, seq<PregeneratedMilestone>>, item: PregeneratedMilestone)
    ensures cats[item.category := []][item.category := [] + [item]] == cats[item.category := [item]]
  {
    assert [] + [item] == [item];
  }

  lemma KeysAppend(ms: seq<PregeneratedMilestone>, item: PregeneratedMilestone, ms2: seq<PregeneratedMilestone>)
    requires ms2 == ms + [item]
    ensures KeysOf(ms2, ItemCategory) == KeysOf(ms, ItemCategory) + [item.category]
  {
    assert ms2[..|ms|] == ms;
  }

  /** The category dict and its key order. */
  datatype Index = Index(categories: map<string, seq<PregeneratedMilestone>>, order: seq<string>)

  /** One round of the `_load` loop on the index: a bucket is made for a
      category met for the first time, then the item joins its bucket. */
  function Register(ix: Index, item: PregeneratedMilestone): Index {
    var c := item.category;
    var cats := if c in ix.categories then ix.categories else ix.categories[c := []];
    var order := if c in ix.categories then ix.order else ix.order + [c];
    Index(cats[c := cats[c] + [item]], order)
  }

  /** The index `_load` builds from the milestone list, item by item. */
  function IndexOf(ms: seq<PregeneratedMilestone>): Index {
    if ms == [] then Index(map[], []) else Register(IndexOf(ms[..|ms| - 1]), ms[|ms| - 1])
  }

  /** Loading item by item groups the milestones by category, with the
      categories in order of first occurrence. */
  lemma {:induction false} IndexOfMeaning(ms: seq<PregeneratedMilestone>)
    ensures Indexed(ms, IndexOf(ms).categories, IndexOf(ms).order)
  {
    if ms == [] {
      assert KeysOf(ms, ItemCategory) == [];
    } else {
      var init := ms[..|ms| - 1];
      SplitLast(ms);
      IndexOfMeaning(init);
      RegisterIndexed(init, IndexOf(init), ms[|ms| - 1], ms);
    }
  }

  lemma SplitLast(ms: seq<PregeneratedMilestone>)
    requires ms != []
    ensures ms == ms[..|ms| - 1] + [ms[|ms| - 1]]
  {
  }

  /** One round of the loop keeps the index exact. */
  lemma RegisterIndexed(ms: seq<PregeneratedMilestone>, ix: Index, item: PregeneratedMilestone, ms2: seq<PregeneratedMilestone>)
    requires Indexed(ms, ix.categories, ix.order)
    requires ms2 == ms + [item]
    ensures Indexed(ms2, Register(ix, item).categories, Register(ix, item).order)
  {
    var c := item.category;
    if c in ix.categories {
      assert Register(ix, item) == Index(ix.categories[c := ix.categories[c] + [item]], ix.order);
      IndexedAppendKnown(ms, ix.categories, ix.order, item);
    } else {
      RegisterNew(ix, item);
      IndexedAppendNew(ms, ix.categories, ix.order, item);
    }
  }

  lemma RegisterNew(ix: Index, item: PregeneratedMilestone)
    requires item.category !in ix.categories
    ensures Register(ix, item) == Index(ix.categories[item.category := [item]], ix.order + [item.category])
  {
    assert [] + [item] == [item];
  }

  datatype SelectError = CategoryNotFound(category: string) | EmptyPool

  /** What one call of `get_random_milestone` returns (or raises) and the
      set of used ids it leaves behind. */
  datatype Selection = Selection(result: Result<PregeneratedMilestone, SelectError>, used: set<int>)

  /** The pool after the repeat filter: the unseen part when repeats are to be
      avoided, fewer ids are used than the pool holds, and something is unseen. */
  function Narrow(pool: seq<PregeneratedMilestone>, used: set<int>, avoidRepeats: bool): seq<PregeneratedMilestone> {
    if avoidRepeats && |used| < |pool| && Unseen(pool, used) != [] then Unseen(pool, used) else pool
  }

  /** `get_random_milestone(category, avoid_repeats)` on the loader state
      `(ms, cats, used)` with the random number `draw`: an unknown category
      fails before anything changes; otherwise the used ids are forgotten once
      there are as many as milestones, and the pick (if the pool is not
      empty) is recorded. */
  function Select(ms: seq<PregeneratedMilestone>, cats: map<string, seq<PregeneratedMilestone>>, used: set<int>,
                  category: Option<string>, avoidRepeats: bool, draw: nat): (s: Selection)
    ensures s.result.Err? && s.result.error.CategoryNotFound? <==> Requested(category) && category.value !in cats
    ensures s.result.Err? && s.result.error.CategoryNotFound? ==> s.result.error.category == category.value
    ensures s.result.Err? && s.result.error.CategoryNotFound? ==> s.used == used
    ensures s.result.Ok? ==> s.used == (if |used| >= |ms| then {} else used) + {s.result.value.id}
    ensures s.result == Err(EmptyPool) ==> s.used == (if |used| >= |ms| then {} else used)
    ensures s.result.Ok? ==> s.result.value in (if Requested(category) then cats[category.value] else ms)
  {
    if Requested(category) && category.value !in cats then
      Selection(Err(CategoryNotFound(category.value)), used)
    else
      var pool := Narrow(if Requested(category) then cats[category.value] else ms, used, avoidRepeats);
      var kept := if |used| >= |ms| then {} else used;
      if pool == [] then Selection(Err(EmptyPool), kept)
      else
        var m := Pick(pool, false, draw);
        Selection(Ok(m), kept + {m.id})
  }

  /** A pick comes from the catalogue, and from the requested category. */
  lemma SelectFromCatalogue(ms: seq<PregeneratedMilestone>, cats: map<string, seq<PregeneratedMilestone>>, order: seq<string>,
                            used: set<int>, category: Option<string>, avoidRepeats: bool, draw: nat)
    requires Indexed(ms, cats, order)
    ensures var s := Select(ms, cats, used, category, avoidRepeats, draw);
      s.result.Ok? ==> s.result.value in ms && (Requested(category) ==> s.result.value.category == category.value)
  {
  }

  /** Only an unrequested pick from an empty catalogue finds nothing to draw. */
  lemma SelectEmptyPool(ms: seq<PregeneratedMilestone>, cats: map<string, seq<PregeneratedMilestone>>, order: seq<string>,
                        used: set<int>, category: Option<string>, avoidRepeats: bool, draw: nat)
    requires Indexed(ms, cats, order)
    ensures Select(ms, cats, used, category, avoidRepeats, draw).result == Err(EmptyPool) <==> !Requested(category) && ms == []
  {
    if Requested(category) && category.value in cats {
      BucketsNonEmpty(ms, cats, order, category.value);
    }
  }

  /** With repeats to be avoided and fewer ids used than the pool holds, a
      milestone not yet used is picked whenever the pool has one. */
  lemma SelectAvoidsRepeats(ms: seq<PregeneratedMilestone>, cats: map<string, seq<PregeneratedMilestone>>,
                            used: set<int>, category: Option<string>, draw: nat, m: PregeneratedMilestone)
    requires !(Requested(category) && category.value !in cats)
    requires m in (if Requested(category) then cats[category.value] else ms) && m.id !in used
    requires |used| < |if Requested(category) then cats[category.value] else ms|
    ensures var s := Select(ms, cats, used, category, true, draw);
      s.result.Ok? && s.result.value.id !in used
  {
    var pool := if Requested(category) then cats[category.value] else ms;
    assert m in Unseen(pool, used);
  }

  /** Used ids stay ids of the catalogue. */
  lemma SelectKeepsUsedWithin(ms: seq<PregeneratedMilestone>, cats: map<string, seq<PregeneratedMilestone>>, order: seq<string>,
                              used: set<int>, category: Option<string>, avoidRepeats: bool, draw: nat)
    requires Indexed(ms, cats, order) && used <= Ids(ms)
    ensures Select(ms, cats, used, category, avoidRepeats, draw).used <= Ids(ms)
  {
    SelectFromCatalogue(ms, cats, order, used, category, avoidRepeats, draw);
  }

  /** Once as many ids are used as there are milestones, the set starts over
      with just the new pick, taken from the whole pool. */
  lemma SelectResets(ms: seq<PregeneratedMilestone>, cats: map<string, seq<PregeneratedMilestone>>,
                     used: set<int>, category: Option<string>, avoidRepeats: bool, draw: nat)
    requires |used| >= |ms|
    ensures var s := Select(ms, cats, used, category, avoidRepeats, draw);
      s.result.Ok? ==> s.used == {s.result.value.id}
  {
  }

  /** The used ids and the ids handed out, in order, after one call per draw
      starting from a fresh loader, with no category and repeats avoided. */
  datatype Round = Round(used: set<int>, picked: seq<int>)

  function Run(ms: seq<PregeneratedMilestone>, cats: map<string, seq<PregeneratedMilestone>>, draws: seq<nat>): Round {
    if draws == [] then Round({}, [])
    else
      var r := Run(ms, cats, draws[..|draws| - 1]);
      var s := Select(ms, cats, r.used, None, true, draws[|draws| - 1]);
      Round(s.used, r.picked + (if s.result.Ok? then [s.result.value.id] else []))
  }

  /** A fresh pick is possible while some id is unused: with distinct ids,
      fewer used ids than milestones leave one unseen. */
  lemma UnusedExists(ms: seq<PregeneratedMilestone>, used: set<int>)
    requires UniqueIds(ms) && used <= Ids(ms) && |used| < |ms|
    ensures exists i :: 0 <= i < |ms| && ms[i].id !in used
  {
    if forall i :: 0 <= i < |ms| ==> ms[i].id in used {
      forall x | x in Ids(ms)
        ensures x in used
      {
        IdsOwned(ms, x);
      }
      UniqueIdsCount(ms);
      SubsetSize(Ids(ms), used);
      assert false;
    }
  }

  /** With distinct ids, the first `|ms|` calls hand out `|ms|` different
      milestones: nothing repeats before everything has been seen once. */
  lemma {:induction false} RunCoversBeforeRepeating(ms: seq<PregeneratedMilestone>, cats: map<string, seq<PregeneratedMilestone>>, draws: seq<nat>)
    requires UniqueIds(ms) && |draws| <= |ms|
    ensures var r := Run(ms, cats, draws);
      && |r.picked| == |draws| && Distinct(r.picked)
      && (forall id :: id in r.used <==> id in r.picked)
      && r.used <= Ids(ms) && |r.used| == |draws|
  {
    if draws != [] {
      var prior := draws[..|draws| - 1];
      RunCoversBeforeRepeating(ms, cats, prior);
      var r := Run(ms, cats, prior);
      FreshPick(ms, cats, r.used, draws[|draws| - 1]);
      var s := Select(ms, cats, r.used, None, true, draws[|draws| - 1]);
      DistinctAppend(r.picked, s.result.value.id);
    }
  }

  /** While fewer ids are used than there are milestones, the next unrequested
      pick is a milestone not used yet, and it is added to the used set. */
  lemma FreshPick(ms: seq<PregeneratedMilestone>, cats: map<string, seq<PregeneratedMilestone>>, used: set<int>, draw: nat)
    requires UniqueIds(ms) && used <= Ids(ms) && |used| < |ms|
    ensures var s := Select(ms, cats, used, None, true, draw);
      && s.result.Ok? && s.result.value.id !in used && s.result.value.id in Ids(ms)
      && s.used == used + {s.result.value.id} && |s.used| == |used| + 1
  {
    var s := Select(ms, cats, used, None, true, draw);
    assert s.result.Ok? && s.result.value.id !in used by {
      UnusedExists(ms, used);
      var i :| 0 <= i < |ms| && ms[i].id !in used;
      SelectAvoidsRepeats(ms, cats, used, None, draw, ms[i]);
    }
    var m := s.result.value;
    assert m in ms;
    assert m.id in Ids(ms);
    AddFresh(used, m.id);
  }

  lemma AddFresh(used: set<int>, id: int)
    requires id !in used
    ensures |used + {id}| == |used| + 1
  {
  }

  lemma DistinctAppend(s: seq<int>, x: int)
    requires Distinct(s) && x !in s
    ensures Distinct(s + [x])
  {
  }

  /** The call after the first `|ms|` starts the used set over. */
  lemma RunStartsOver(ms: seq<PregeneratedMilestone>, cats: map<string, seq<PregeneratedMilestone>>, draws: seq<nat>)
    requires UniqueIds(ms) && ms != [] && |draws| == |ms| + 1
    ensures var r := Run(ms, cats, draws);
      |r.picked| == |draws| && r.used == {r.picked[|ms|]}
  {
    RunCoversBeforeRepeating(ms, cats, draws[..|ms|]);
    SelectResets(ms, cats, Run(ms, cats, draws[..|ms|]).used, None, true, draws[|ms|]);
  }

  class PregeneratedLoader {
    var milestones: seq<PregeneratedMilestone>
    /** The category dict; its key order is kept in `categoryOrder`. */
    var categories: map<string, seq<PregeneratedMilestone>>
    var categoryOrder: seq<string>
    var usedIds: set<int>

    /** The category dict and its key order are what loading the
        milestone list produces. */
    ghost predicate Valid()
      reads this
    {
      Index(categories, categoryOrder) == IndexOf(milestones)
    }

    /** `PregeneratedLoader(json_path)`, given the file's milestone list. */
    constructor(items: seq<PregeneratedMilestone>)
      ensures Valid()
      ensures milestones == items && usedIds == {}
    {
      milestones := [];
      categories := map[];
      categoryOrder := [];
      usedIds := {};
      new;
      Load(items);
    }

    /** `_load`: appends each item to the list and to its category's bucket,
        creating the bucket the first time the category occurs. */
    method Load(items: seq<PregeneratedMilestone>)
      requires Valid()
      modifies this
      ensures Valid()
      ensures milestones == old(milestones) + items
      ensures usedIds == old(usedIds)
    {
      var i := 0;
      while i < |items|
        invariant 0 <= i <= |items|
        invariant milestones == old(milestones) + items[..i]
        invariant usedIds == old(usedIds)
        invariant Valid()
      {
        var item := items[i];
        assert items[..i + 1] == items[..i] + [item];
        milestones := milestones + [item];
        if item.category !in categories {
          categories := categories[item.category := []];
          categoryOrder := categoryOrder + [item.category];
        }
        categories := categories[item.category := categories[item.category] + [item]];
        assert milestones[..|milestones| - 1] == old(milestones) + items[..i];
        i := i + 1;
      }
    }

    /** `get_random_milestone(category, avoid_repeats)` with the random number
        made the argument `draw`. */
    method RandomMilestone(category: Option<string>, avoidRepeats: bool, draw: nat)
      returns (r: Result<PregeneratedMilestone, SelectError>)
      modifies this
      ensures var s := Select(old(milestones), old(categories), old(usedIds), category, avoidRepeats, draw);
        r == s.result && usedIds == s.used
      ensures milestones == old(milestones) && categories == old(categories) && categoryOrder == old(categoryOrder)
      ensures old(Valid()) ==> Valid()
    {
      var pool;
      if Requested(category) {
        if category.value !in categories {
          return Err(CategoryNotFound(category.value));
        }
        pool := categories[category.value];
      } else {
        pool := milestones;
      }
      if avoidRepeats && |usedIds| < |pool| {
        var available := Unseen(pool, usedIds);
        if available != [] {
          pool := available;
        }
      }
      if |usedIds| >= |milestones| {
        usedIds := {};
      }
      if pool == [] {
        return Err(EmptyPool);
      }
      var selected := pool[draw % |pool|];
      usedIds := usedIds + {selected.id};
      return Ok(selected);
    }

    /** `reset_usage()`. */
    method ResetUsage()
      modifies this
      ensures usedIds == {}
      ensures milestones == old(milestones) && categories == old(categories) && categoryOrder == old(categoryOrder)
      ensures old(Valid()) ==> Valid()
    {
      usedIds := {};
    }

    /** `get_categories()`: each category once, in the order the file first
        mentions it, and exactly the categories some milestone has. */
    function Categories(): (names: seq<string>)
      reads this
      ensures Valid() ==> Distinct(names)
      ensures Valid() ==> forall c :: c in names <==> exists i :: 0 <= i < |milestones| && milestones[i].category == c
      ensures Valid() ==> names == FirstSeen(KeysOf(milestones, ItemCategory))
    {
      assert Valid() ==> Indexed(milestones, categories, categoryOrder) by {
        if Valid() {
          IndexOfMeaning(milestones);
        }
      }
      assert Valid() ==> forall c :: c in categoryOrder <==> c in KeysOf(milestones, ItemCategory);
      categoryOrder
    }

    /** `get_category_stats()`: every category's count is positive and the
        counts add up to the number of milestones. */
    function CategoryStats(): (stats: map<string, nat>)
      reads this
      ensures stats.Keys == categories.Keys
      ensures forall c :: c in stats ==> stats[c] == |categories[c]|
      ensures Valid() ==> forall c :: c in stats ==> stats[c] > 0
      ensures Valid() ==> (forall c :: c in Categories() ==> c in stats) && SumCounts(Categories(), stats) == Length()
    {
      assert Valid() ==> SumCounts(categoryOrder, Stats(categories)) == |milestones| by {
        if Valid() {
          IndexOfMeaning(milestones);
          StatsSumToTotal(milestones, ItemCategory, categories, categoryOrder);
        }
      }
      assert Valid() ==> forall c :: c in categories ==> categories[c] != [] by {
        if Valid() {
          IndexOfMeaning(milestones);
          forall c | c in categories
            ensures categories[c] != []
          {
            BucketsNonEmpty(milestones, categories, categoryOrder, c);
          }
        }
      }
      Stats(categories)
    }

    /** `len(loader)`: empty exactly when no category is listed. */
    function Length(): (n: nat)
      reads this
      ensures Valid() ==> (n == 0 <==> Categories() == [])
    {
      assert Valid() ==> (milestones == [] <==> categoryOrder == []) by {
        if Valid() {
          IndexOfMeaning(milestones);
          if milestones != [] {
            assert milestones[0].category in categoryOrder;
          }
        }
      }
      |milestones|
    }
  }
}
