/**
 * The category index both catalogues keep beside their item list: a map
 * from category name to the items of that category in list order, whose
 * keys keep the order in which each category first appeared (a Python
 * dict's insertion order).
 */
module Grouping {

  /** The items of category `c`, in list order. */
  function Bucket<T(!new)>(items: seq<T>, key: T -> string, c: string): (b: seq<T>)
    ensures |b| <= |items|
    ensures forall x :: x in b <==> x in items && key(x) == c
  {
    if items == [] then []
    else
      var last := items[|items| - 1];
      assert forall x :: x in items <==> x in items[..|items| - 1] || x == last by {
        assert items == items[..|items| - 1] + [last];
      }
      Bucket(items[..|items| - 1], key, c) + (if key(last) == c then [last] else [])
  }

  lemma BucketAppend<T(!new)>(items: seq<T>, key: T -> string, c: string, x: T)
    ensures Bucket(items + [x], key, c) == Bucket(items, key, c) + (if key(x) == c then [x] else [])
  {
    assert (items + [x])[..|items|] == items;
  }

  predicate Distinct<T(==)>(s: seq<T>) {
    forall i, j :: 0 <= i < j < |s| ==> s[i] != s[j]
  }

  /** The distinct names of `names`, in order of first appearance: the key
      order of a dict that registers each name when it first comes up. */
  function FirstSeen(names: seq<string>): (order: seq<string>)
    ensures Distinct(order)
    ensures forall c :: c in order <==> c in names
  {
    if names == [] then []
    else
      var last := names[|names| - 1];
      var prior := FirstSeen(names[..|names| - 1]);
      assert forall c :: c in names <==> c in names[..|names| - 1] || c == last by {
        assert names == names[..|names| - 1] + [last];
      }
      if last in prior then prior else prior + [last]
  }

  lemma FirstSeenAppend(names: seq<string>, c: string)
    ensures FirstSeen(names + [c]) == if c in FirstSeen(names) then FirstSeen(names) else FirstSeen(names) + [c]
  {
    assert (names + [c])[..|names|] == names;
  }

  /** The category of each item, in list order. */
  function KeysOf<T>(items: seq<T>, key: T -> string): (names: seq<string>)
    ensures |names| == |items|
    ensures forall i :: 0 <= i < |items| ==> names[i] == key(items[i])
  {
    if items == [] then [] else KeysOf(items[..|items| - 1], key) + [key(items[|items| - 1])]
  }

  /** `buckets` and `order` index `items` exactly: the keys are the categories
      listed in `order`, each once; each bucket holds the items of its category
      in list order; and every item's category has a bucket. */
  ghost predicate Grouped<T(!new)>(items: seq<T>, key: T -> string, buckets: map<string, seq<T>>, order: seq<string>) {
    && Distinct(order)
    && (forall c :: c in buckets <==> c in order)
    && (forall c :: c in buckets ==> buckets[c] == Bucket(items, key, c))
    && (forall i :: 0 <= i < |items| ==> key(items[i]) in buckets)
  }

  /** Appending an item to the list and to its existing bucket keeps the index exact. */
  lemma GroupedAppend<T(!new)>(items: seq<T>, key: T -> string, buckets: map<string, seq<T>>, order: seq<string>, x: T)
    requires Grouped(items, key, buckets, order)
    requires key(x) in buckets
    ensures Grouped(items + [x], key, buckets[key(x) := buckets[key(x)] + [x]], order)
  {
    var grown := buckets[key(x) := buckets[key(x)] + [x]];
    forall c | c in grown
      ensures grown[c] == Bucket(items + [x], key, c)
    {
      BucketAppend(items, key, c, x);
    }
    forall i | 0 <= i < |items + [x]|
      ensures key((items + [x])[i]) in grown
    {
      if i < |items| {
        assert (items + [x])[i] == items[i];
      }
    }
  }

  /** Registering a category no item has yet, with an empty bucket, keeps the index exact. */
  lemma GroupedNewKey<T(!new)>(items: seq<T>, key: T -> string, buckets: map<string, seq<T>>, order: seq<string>, c: string)
    requires Grouped(items, key, buckets, order)
    requires c !in buckets
    ensures Grouped(items, key, buckets[c := []], order + [c])
  {
    BucketOfAbsent(items, key, c);
  }

  lemma {:induction false} BucketOfAbsent<T(!new)>(items: seq<T>, key: T -> string, c: string)
    requires forall i :: 0 <= i < |items| ==> key(items[i]) != c
    ensures Bucket(items, key, c) == []
  {
    if items != [] {
      BucketOfAbsent(items[..|items| - 1], key, c);
    }
  }

  /** `{cat: len(items) for cat, items in buckets.items()}`. */
  function Stats<T>(buckets: map<string, seq<T>>): (stats: map<string, nat>)
    ensures stats.Keys == buckets.Keys
    ensures forall c :: c in stats ==> stats[c] == |buckets[c]|
  {
    map c | c in buckets :: |buckets[c]|
  }

  /** The sum of the counts of the categories listed in `order`. */
  function SumCounts(order: seq<string>, stats: map<string, nat>): nat
    requires forall c :: c in order ==> c in stats
  {
    if order == [] then 0 else stats[order[0]] + SumCounts(order[1..], stats)
  }

  /** The number of items whose category is listed in `order`, counted bucket by bucket. */
  function CountListed<T(!new)>(items: seq<T>, key: T -> string, order: seq<string>): nat {
    if order == [] then 0 else |Bucket(items, key, order[0])| + CountListed(items, key, order[1..])
  }

  lemma {:induction false} CountListedAppend<T(!new)>(items: seq<T>, key: T -> string, order: seq<string>, x: T)
    requires Distinct(order)
    ensures CountListed(items + [x], key, order) == CountListed(items, key, order) + (if key(x) in order then 1 else 0)
  {
    if order != [] {
      BucketAppend(items, key, order[0], x);
      CountListedAppend(items, key, order[1..], x);
      assert key(x) in order <==> key(x) == order[0] || key(x) in order[1..];
      assert key(x) == order[0] ==> key(x) !in order[1..];
    }
  }

  /** When every item's category is listed once, counting bucket by bucket counts every item once. */
  lemma {:induction false} CountListedAll<T(!new)>(items: seq<T>, key: T -> string, order: seq<string>)
    requires Distinct(order)
    requires forall i :: 0 <= i < |items| ==> key(items[i]) in order
    ensures CountListed(items, key, order) == |items|
  {
    if items == [] {
      CountListedNone(key, order);
    } else {
      var init := items[..|items| - 1];
      CountListedAll(init, key, order);
      CountListedAppend(init, key, order, items[|items| - 1]);
      assert init + [items[|items| - 1]] == items;
    }
  }

  lemma {:induction false} CountListedNone<T(!new)>(key: T -> string, order: seq<string>)
    ensures CountListed([], key, order) == 0
  {
    if order != [] {
      CountListedNone(key, order[1..]);
    }
  }

  lemma {:induction false} SumCountsListed<T(!new)>(items: seq<T>, key: T -> string, buckets: map<string, seq<T>>, order: seq<string>)
    requires forall c :: c in order ==> c in buckets && buckets[c] == Bucket(items, key, c)
    ensures SumCounts(order, Stats(buckets)) == CountListed(items, key, order)
  {
    if order != [] {
      SumCountsListed(items, key, buckets, order[1..]);
    }
  }

  /** The per-category counts add up to the number of items: every item sits
      in exactly one bucket. */
  lemma StatsSumToTotal<T(!new)>(items: seq<T>, key: T -> string, buckets: map<string, seq<T>>, order: seq<string>)
    requires Grouped(items, key, buckets, order)
    ensures forall c :: c in order ==> c in Stats(buckets)
    ensures SumCounts(order, Stats(buckets)) == |items|
  {
    SumCountsListed(items, key, buckets, order);
    CountListedAll(items, key, order);
  }
}
