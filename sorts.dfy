/** Path orderings and the sorts built on them (`src/sorts.rs`).
  *
  * A path is compared component by component after splitting on '/'; the
  * two derived orders put directories (paths ending in '/') first, or
  * shallower paths first. All three are total orders in which only equal
  * strings compare `Equal`, so a sorted permutation is unique and the sorts
  * are specified by "sorted and a permutation" alone. */
module Sorts {
  import opened Common
  import opened Text

  // ---------------------------------------------------------------------
  // String and component comparison

  /** `str::cmp`: lexicographic by Unicode scalar value, which is also the
    * byte order of the UTF-8 encodings. */
  function CompareStr(a: string, b: string): Ordering {
    if a == [] && b == [] then Equal
    else if a == [] then Less
    else if b == [] then Greater
    else if a[0] < b[0] then Less
    else if a[0] > b[0] then Greater
    else CompareStr(a[1..], b[1..])
  }

  lemma {:induction false} CompareStrReverse(a: string, b: string)
    ensures CompareStr(b, a) == CompareStr(a, b).Reverse()
  {
    if a != [] && b != [] && a[0] == b[0] {
      CompareStrReverse(a[1..], b[1..]);
    }
  }

  lemma {:induction false} CompareStrEqual(a: string, b: string)
    ensures CompareStr(a, b) == Equal <==> a == b
  {
    if a != [] && b != [] && a[0] == b[0] {
      CompareStrEqual(a[1..], b[1..]);
      assert a == [a[0]] + a[1..] && b == [b[0]] + b[1..];
    }
  }

  lemma {:induction false} CompareStrTransitive(a: string, b: string, c: string)
    requires CompareStr(a, b) != Greater && CompareStr(b, c) != Greater
    ensures CompareStr(a, c) != Greater
  {
    if a != [] && b != [] && c != [] && a[0] == b[0] == c[0] {
      CompareStrTransitive(a[1..], b[1..], c[1..]);
    }
  }

  /** The zip scan of `compare_items_as_paths`: the first unequal pair of
    * components decides; when one list runs out, the shorter list is first. */
  function CompareParts(a: seq<string>, b: seq<string>): Ordering {
    if a == [] || b == [] then CompareInt(|a|, |b|)
    else if CompareStr(a[0], b[0]) != Equal then CompareStr(a[0], b[0])
    else CompareParts(a[1..], b[1..])
  }

  lemma {:induction false} ComparePartsReverse(a: seq<string>, b: seq<string>)
    ensures CompareParts(b, a) == CompareParts(a, b).Reverse()
  {
    if a != [] && b != [] {
      CompareStrReverse(a[0], b[0]);
      ComparePartsReverse(a[1..], b[1..]);
    }
  }

  lemma {:induction false} ComparePartsEqual(a: seq<string>, b: seq<string>)
    ensures CompareParts(a, b) == Equal <==> a == b
  {
    if a != [] && b != [] {
      CompareStrEqual(a[0], b[0]);
      ComparePartsEqual(a[1..], b[1..]);
      assert a == [a[0]] + a[1..] && b == [b[0]] + b[1..];
    }
  }

  lemma {:induction false} ComparePartsTransitive(a: seq<string>, b: seq<string>, c: seq<string>)
    requires CompareParts(a, b) != Greater && CompareParts(b, c) != Greater
    ensures CompareParts(a, c) != Greater
  {
    if a != [] && b != [] && c != [] {
      CompareStrEqual(a[0], b[0]);
      CompareStrEqual(b[0], c[0]);
      CompareStrTransitive(a[0], b[0], c[0]);
      if CompareStr(a[0], b[0]) == Equal && CompareStr(b[0], c[0]) == Equal {
        ComparePartsTransitive(a[1..], b[1..], c[1..]);
      } else {
        CompareStrEqual(a[0], c[0]);
        if a[0] == c[0] {
          CompareStrReverse(a[0], b[0]);
        }
      }
    }
  }

  /** A component list sorts before any longer list that extends it. */
  lemma {:induction false} ComparePartsPrefix(a: seq<string>, b: seq<string>)
    requires b != []
    ensures CompareParts(a, a + b) == Less
  {
    if a != [] {
      CompareStrEqual(a[0], a[0]);
      assert (a + b)[0] == a[0] && (a + b)[1..] == a[1..] + b;
      ComparePartsPrefix(a[1..], b);
    }
  }

  // ---------------------------------------------------------------------
  // The three comparators

  /** `compare_items_as_paths`. */
  function CompareItemsAsPaths(a: string, b: string): Ordering {
    CompareParts(Split(a, '/'), Split(b, '/'))
  }

  predicate IsDir(path: string) {
    EndsWith(path, "/")
  }

  /** `compare_paths_dirs_first`. */
  function ComparePathsDirsFirst(a: string, b: string): Ordering {
    if IsDir(a) && !IsDir(b) then Less
    else if !IsDir(a) && IsDir(b) then Greater
    else CompareItemsAsPaths(a, b)
  }

  /** Number of '/' in a path. */
  function Depth(path: string): nat {
    CountChar(path, '/')
  }

  /** `compare_paths_by_depth`. */
  function ComparePathsByDepth(a: string, b: string): Ordering {
    Then(CompareInt(Depth(a), Depth(b)), CompareItemsAsPaths(a, b))
  }

  /** Selects one of the three comparators passed to `sort_by`. */
  datatype PathOrder = AsPaths | DirsFirst | ByDepth

  function CompareBy(order: PathOrder, a: string, b: string): Ordering {
    match order
    case AsPaths => CompareItemsAsPaths(a, b)
    case DirsFirst => ComparePathsDirsFirst(a, b)
    case ByDepth => ComparePathsByDepth(a, b)
  }

  predicate Le(order: PathOrder, a: string, b: string) {
    CompareBy(order, a, b) != Greater
  }

  // ---------------------------------------------------------------------
  // Each comparator is a total order

  /** Swapping the arguments reverses the result. */
  lemma CompareByReverse(order: PathOrder, a: string, b: string)
    ensures CompareBy(order, b, a) == CompareBy(order, a, b).Reverse()
  {
    ComparePartsReverse(Split(a, '/'), Split(b, '/'));
  }

  /** Only equal paths compare `Equal`; in particular every path compares
    * `Equal` to itself. */
  lemma CompareByEqual(order: PathOrder, a: string, b: string)
    ensures CompareBy(order, a, b) == Equal <==> a == b
  {
    ComparePartsEqual(Split(a, '/'), Split(b, '/'));
    if Split(a, '/') == Split(b, '/') {
      JoinSplit(a, '/');
      JoinSplit(b, '/');
    }
  }

  lemma CompareByTransitive(order: PathOrder, a: string, b: string, c: string)
    requires Le(order, a, b) && Le(order, b, c)
    ensures Le(order, a, c)
  {
    var pa, pb, pc := Split(a, '/'), Split(b, '/'), Split(c, '/');
    match order
    case AsPaths =>
      ComparePartsTransitive(pa, pb, pc);
    case DirsFirst =>
      if IsDir(a) == IsDir(b) == IsDir(c) {
        ComparePartsTransitive(pa, pb, pc);
      }
    case ByDepth =>
      if Depth(a) == Depth(b) == Depth(c) {
        ComparePartsTransitive(pa, pb, pc);
      }
  }

  lemma CompareByTotal(order: PathOrder, a: string, b: string)
    ensures Le(order, a, b) || Le(order, b, a)
  {
    CompareByReverse(order, a, b);
  }

  // ---------------------------------------------------------------------
  // What each comparator promises

  /** "dir" sorts before "dir/file": a path sorts before every path that
    * extends it by further components. */
  lemma ParentBeforeChild(parent: string, rest: string)
    ensures CompareItemsAsPaths(parent, parent + "/" + rest) == Less
  {
    SplitConcat(parent, '/', rest);
    ComparePartsPrefix(Split(parent, '/'), Split(rest, '/'));
  }

  /** Paths are ordered by their first differing component. */
  lemma FirstDifferingComponentDecides(prefix: string, x: string, y: string, xs: string, ys: string)
    requires '/' !in x && '/' !in y && CompareStr(x, y) == Less
    ensures CompareItemsAsPaths(prefix + "/" + x + "/" + xs, prefix + "/" + y + "/" + ys) == Less
  {
    var a := prefix + "/" + x + "/" + xs;
    var b := prefix + "/" + y + "/" + ys;
    assert a == prefix + ['/'] + (x + ['/'] + xs);
    assert b == prefix + ['/'] + (y + ['/'] + ys);
    SplitConcat(prefix, '/', x + ['/'] + xs);
    SplitConcat(prefix, '/', y + ['/'] + ys);
    SplitPrefix(x, '/', xs);
    SplitPrefix(y, '/', ys);
    CommonPrefixParts(Split(prefix, '/'), [x] + Split(xs, '/'), [y] + Split(ys, '/'));
  }

  lemma {:induction false} CommonPrefixParts(p: seq<string>, a: seq<string>, b: seq<string>)
    ensures CompareParts(p + a, p + b) == CompareParts(a, b)
  {
    if p != [] {
      CompareStrEqual(p[0], p[0]);
      assert (p + a)[1..] == p[1..] + a && (p + b)[1..] == p[1..] + b;
      CommonPrefixParts(p[1..], a, b);
    } else {
      assert p + a == a && p + b == b;
    }
  }

  /** Every directory entry sorts before every file entry. */
  lemma DirsBeforeFiles(dir: string, file: string)
    requires IsDir(dir) && !IsDir(file)
    ensures ComparePathsDirsFirst(dir, file) == Less
  {
  }

  /** A shallower path sorts first; at equal depth the path order decides. */
  lemma ShallowerFirst(a: string, b: string)
    ensures Depth(a) < Depth(b) ==> ComparePathsByDepth(a, b) == Less
    ensures Depth(a) == Depth(b) ==> ComparePathsByDepth(a, b) == CompareItemsAsPaths(a, b)
  {
  }

  /** The depth is one less than the number of components. */
  lemma DepthIsComponentCount(path: string)
    ensures Depth(path) + 1 == |Split(path, '/')|
  {
    SplitCount(path, '/');
  }

  // ---------------------------------------------------------------------
  // Sortedness

  predicate Sorted(s: seq<string>, order: PathOrder) {
    forall i, j :: 0 <= i < j < |s| ==> Le(order, s[i], s[j])
  }

  lemma SortedFirstLe(s: seq<string>, k: nat, order: PathOrder)
    requires Sorted(s, order) && k < |s|
    ensures Le(order, s[0], s[k])
  {
    if k == 0 {
      CompareByEqual(order, s[0], s[0]);
    }
  }

  /** Two sorted arrangements of the same paths start with the same path. */
  lemma SortedHeadsEqual(s: seq<string>, t: seq<string>, order: PathOrder)
    requires Sorted(s, order) && Sorted(t, order) && multiset(s) == multiset(t) && s != []
    ensures t != [] && s[0] == t[0]
  {
    assert s[0] in multiset(t);
    assert t[0] in multiset(s) by { assert t[0] in t; }
    var j :| 0 <= j < |t| && t[j] == s[0];
    var k :| 0 <= k < |s| && s[k] == t[0];
    SortedFirstLe(t, j, order);
    SortedFirstLe(s, k, order);
    CompareByReverse(order, s[0], t[0]);
    CompareByEqual(order, s[0], t[0]);
  }

  /** A sorted permutation is unique: any two sorted arrangements of the
    * same paths are identical, whatever sorting algorithm produced them. */
  lemma {:induction false} SortedUnique(s: seq<string>, t: seq<string>, order: PathOrder)
    requires Sorted(s, order) && Sorted(t, order) && multiset(s) == multiset(t)
    ensures s == t
    decreases |s|
  {
    if s != [] {
      SortedHeadsEqual(s, t, order);
      assert s == [s[0]] + s[1..] && t == [t[0]] + t[1..];
      assert multiset(s[1..]) == multiset(s) - multiset{s[0]};
      assert multiset(t[1..]) == multiset(t) - multiset{t[0]};
      SortedUnique(s[1..], t[1..], order);
    } else {
      assert |t| == |multiset(t)|;
    }
  }

  /** After sorting with directories first, no file precedes a directory. */
  lemma SortedDirsFirstPartition(s: seq<string>)
    requires Sorted(s, DirsFirst)
    ensures forall i, j :: 0 <= i < j < |s| && IsDir(s[j]) ==> IsDir(s[i])
  {
  }

  /** After sorting by depth, depths never decrease. */
  lemma SortedByDepthMonotone(s: seq<string>)
    requires Sorted(s, ByDepth)
    ensures forall i, j :: 0 <= i < j < |s| ==> Depth(s[i]) <= Depth(s[j])
  {
  }

  // ---------------------------------------------------------------------
  // In-place sorts

  /** `slice.sort_by(compare)`: rearranges `a` into a sorted permutation of
    * itself. Rust's library sort is a merge sort; by `SortedUnique` every
    * correct sort gives the same result, and this one inserts each element
    * into the sorted prefix. */
  method SortBy(a: array<string>, order: PathOrder)
    modifies a
    ensures Sorted(a[..], order)
    ensures multiset(a[..]) == multiset(old(a[..]))
  {
    var i := 0;
    while i < a.Length
      invariant 0 <= i <= a.Length
      invariant Sorted(a[..i], order)
      invariant multiset(a[..]) == multiset(old(a[..]))
    {
      InsertLast(a, i, order);
      i := i + 1;
    }
  }

  /** `s[..i + 1]` is sorted except that the element at `j` may be out of
    * place, and that element is no larger than anything after it. */
  predicate Inserting(s: seq<string>, i: nat, j: nat, order: PathOrder)
    requires j <= i < |s|
  {
    && (forall p, q :: 0 <= p < q <= i && p != j && q != j ==> Le(order, s[p], s[q]))
    && (forall q :: j < q <= i ==> Le(order, s[j], s[q]))
  }

  function Swap(s: seq<string>, k: nat): (t: seq<string>)
    requires k + 1 < |s|
    ensures multiset(t) == multiset(s) && |t| == |s|
  {
    s[k := s[k + 1]][k + 1 := s[k]]
  }

  /** A sorted prefix followed by one new element is `Inserting` with the
    * gap at the new element. */
  lemma InsertingStart(s: seq<string>, i: nat, order: PathOrder)
    requires i < |s| && Sorted(s[..i], order)
    ensures Inserting(s, i, i, order)
  {
    forall p, q | 0 <= p < q < i
      ensures Le(order, s[p], s[q])
    {
      assert s[p] == s[..i][p] && s[q] == s[..i][q];
    }
  }

  /** Swapping the misplaced element with a larger left neighbour moves the
    * gap one step left. */
  lemma InsertingStep(s: seq<string>, i: nat, j: nat, order: PathOrder)
    requires 0 < j <= i < |s| && Inserting(s, i, j, order)
    requires CompareBy(order, s[j - 1], s[j]) == Greater
    ensures Inserting(Swap(s, j - 1), i, j - 1, order)
  {
    CompareByReverse(order, s[j - 1], s[j]);
  }

  /** Once the misplaced element has no larger left neighbour, the prefix is
    * sorted. */
  lemma InsertingDone(s: seq<string>, i: nat, j: nat, order: PathOrder)
    requires j <= i < |s| && Inserting(s, i, j, order)
    requires j == 0 || Le(order, s[j - 1], s[j])
    ensures Sorted(s[..i + 1], order)
  {
    forall p | 0 <= p < j
      ensures Le(order, s[p], s[j])
    {
      if p < j - 1 {
        CompareByTransitive(order, s[p], s[j - 1], s[j]);
      }
    }
  }

  /** Moves `a[i]` left past every larger element, so that `a[..i + 1]`
    * becomes sorted. */
  method InsertLast(a: array<string>, i: nat, order: PathOrder)
    requires i < a.Length && Sorted(a[..i], order)
    modifies a
    ensures Sorted(a[..i + 1], order)
    ensures multiset(a[..]) == multiset(old(a[..]))
  {
    var j := i;
    InsertingStart(a[..], i, order);
    while j > 0 && CompareBy(order, a[j - 1], a[j]) == Greater
      invariant 0 <= j <= i
      invariant multiset(a[..]) == multiset(old(a[..]))
      invariant Inserting(a[..], i, j, order)
    {
      ghost var before := a[..];
      InsertingStep(before, i, j, order);
      a[j - 1], a[j] := a[j], a[j - 1];
      assert a[..] == Swap(before, j - 1);
      j := j - 1;
    }
    InsertingDone(a[..], i, j, order);
  }

  /** `sort_paths`. */
  method SortPaths(paths: array<string>)
    modifies paths
    ensures Sorted(paths[..], AsPaths)
    ensures multiset(paths[..]) == multiset(old(paths[..]))
  {
    SortBy(paths, AsPaths);
  }

  /** `sort_paths_dirs_first`. */
  method SortPathsDirsFirst(paths: array<string>)
    modifies paths
    ensures Sorted(paths[..], DirsFirst)
    ensures multiset(paths[..]) == multiset(old(paths[..]))
  {
    SortBy(paths, DirsFirst);
  }

  /** `sort_paths_by_depth`. */
  method SortPathsByDepth(paths: array<string>)
    modifies paths
    ensures Sorted(paths[..], ByDepth)
    ensures multiset(paths[..]) == multiset(old(paths[..]))
  {
    SortBy(paths, ByDepth);
  }

  // ---------------------------------------------------------------------
  // Sorting a hash table

  function Keys<V>(items: seq<(string, V)>): (keys: seq<string>)
    ensures |keys| == |items| && forall i :: 0 <= i < |items| ==> keys[i] == items[i].0
  {
    if items == [] then [] else [items[0].0] + Keys(items[1..])
  }

  /** `sort_hash_by_paths`: the entries of `hash` in path order of their keys.
    * Every key appears exactly once, with its own value. The keys are
    * collected and sorted, then paired with their values, which gives the
    * same vector as sorting the pairs by key. */
  method SortHashByPaths<V>(hash: map<string, V>) returns (items: seq<(string, V)>)
    ensures forall i :: 0 <= i < |items| ==> items[i].0 in hash && items[i].1 == hash[items[i].0]
    ensures multiset(Keys(items)) == multiset(hash.Keys)
    ensures Sorted(Keys(items), AsPaths)
  {
    var collected := CollectKeys(hash);
    var keys := new string[|collected|](i requires 0 <= i < |collected| => collected[i]);
    assert keys[..] == collected;
    SortPaths(keys);
    var sorted := keys[..];
    MultisetMembers(sorted, hash.Keys);
    items := seq(|sorted|, i requires 0 <= i < |sorted| && sorted[i] in hash => (sorted[i], hash[sorted[i]]));
    assert Keys(items) == sorted;
  }

  /** `hash.iter().collect()`: every key once, in whatever order the table
    * yields them. */
  method CollectKeys<V>(hash: map<string, V>) returns (collected: seq<string>)
    ensures multiset(collected) == multiset(hash.Keys)
  {
    collected := [];
    var remaining := hash.Keys;
    while remaining != {}
      invariant remaining <= hash.Keys
      invariant multiset(collected) + multiset(remaining) == multiset(hash.Keys)
      decreases |remaining|
    {
      var k :| k in remaining;
      assert multiset(remaining) == multiset(remaining - {k}) + multiset{k} by {
        assert remaining == (remaining - {k}) + {k};
      }
      collected := collected + [k];
      remaining := remaining - {k};
    }
  }

  /** A sequence with the same multiset as a set holds only its members. */
  lemma MultisetMembers(s: seq<string>, keys: set<string>)
    requires multiset(s) == multiset(keys)
    ensures forall i :: 0 <= i < |s| ==> s[i] in keys
  {
    forall i | 0 <= i < |s|
      ensures s[i] in keys
    {
      assert s[i] in multiset(s);
    }
  }

  /** An `IndexMap` as its entries in insertion order. */
  function IndexOfKey<V>(entries: seq<(string, V)>, key: string): (r: Option<nat>)
    ensures r.None? <==> key !in Keys(entries)
    ensures r.Some? ==> r.value < |entries| && entries[r.value].0 == key
    ensures r.Some? ==> forall j :: 0 <= j < r.value ==> entries[j].0 != key
  {
    if entries == [] then None
    else if entries[0].0 == key then Some(0)
    else
      match IndexOfKey(entries[1..], key)
      case None => None
      case Some(i) => Some(i + 1)
  }

  /** `IndexMap::insert`: a new key is appended; an existing key keeps its
    * place and takes the new value. */
  function IndexMapInsert<V>(entries: seq<(string, V)>, key: string, value: V): (r: seq<(string, V)>)
    ensures key !in Keys(entries) ==> r == entries + [(key, value)]
    ensures key in Keys(entries) ==> |r| == |entries| && Keys(r) == Keys(entries)
    ensures key in Keys(entries) ==>
      exists i :: 0 <= i < |entries| && entries[i].0 == key && (forall j :: 0 <= j < i ==> entries[j].0 != key)
        && r == entries[i := (key, value)]
  {
    match IndexOfKey(entries, key)
    case None => entries + [(key, value)]
    case Some(i) => entries[i := (key, value)]
  }

  predicate DistinctKeys<V>(entries: seq<(string, V)>) {
    forall i, j :: 0 <= i < j < |entries| ==> entries[i].0 != entries[j].0
  }

  /** `sort_hash_to_ordered`: the sorted entries inserted one by one into an
    * ordered map, whose entries end up exactly the sorted entries. */
  method SortHashToOrdered<V>(hash: map<string, V>) returns (ordered: seq<(string, V)>)
    ensures DistinctKeys(ordered)
    ensures forall i :: 0 <= i < |ordered| ==> ordered[i].0 in hash && ordered[i].1 == hash[ordered[i].0]
    ensures multiset(Keys(ordered)) == multiset(hash.Keys)
    ensures Sorted(Keys(ordered), AsPaths)
  {
    var items := SortHashByPaths(hash);
    DistinctKeysOfSet(items, hash.Keys);
    ordered := InsertAll(items);
  }

  /** Inserting entries with distinct keys one by one into an empty ordered
    * map gives back exactly those entries, in the same order. */
  method InsertAll<V>(items: seq<(string, V)>) returns (ordered: seq<(string, V)>)
    requires DistinctKeys(items)
    ensures ordered == items
  {
    ordered := [];
    for i := 0 to |items|
      invariant ordered == items[..i]
    {
      FreshKeyAt(items, i);
      ordered := IndexMapInsert(ordered, items[i].0, items[i].1);
      assert items[..i + 1] == items[..i] + [items[i]];
    }
    assert items[..|items|] == items;
  }

  /** Entries whose keys are, as a multiset, a set have distinct keys. */
  lemma DistinctKeysOfSet<V>(items: seq<(string, V)>, keys: set<string>)
    requires multiset(Keys(items)) == multiset(keys)
    ensures DistinctKeys(items)
  {
    MultisetOfSetDistinct(Keys(items), keys);
    forall a, b | 0 <= a < b < |items|
      ensures items[a].0 != items[b].0
    {
      assert Keys(items)[a] == items[a].0 && Keys(items)[b] == items[b].0;
    }
  }

  /** In entries with distinct keys, no key occurs before its own entry. */
  lemma FreshKeyAt<V>(items: seq<(string, V)>, i: nat)
    requires i < |items| && DistinctKeys(items)
    ensures items[i].0 !in Keys(items[..i])
  {
    var ks := Keys(items[..i]);
    forall t | 0 <= t < |ks|
      ensures ks[t] != items[i].0
    {
      assert ks[t] == items[t].0;
    }
  }

  lemma MultisetOfSetDistinct(s: seq<string>, keys: set<string>)
    requires multiset(s) == multiset(keys)
    ensures forall i, j :: 0 <= i < j < |s| ==> s[i] != s[j]
  {
    forall i, j | 0 <= i < j < |s|
      ensures s[i] != s[j]
    {
      if s[i] == s[j] {
        RepeatedTwice(s, i, j);
        assert false;
      }
    }
  }

  lemma RepeatedTwice(s: seq<string>, i: nat, j: nat)
    requires i < j < |s| && s[i] == s[j]
    ensures multiset(s)[s[i]] >= 2
  {
    assert s == s[..i] + [s[i]] + s[i + 1..j] + [s[j]] + s[j + 1..];

  }
}
