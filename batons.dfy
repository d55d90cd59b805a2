/** Callback batons: boxed Rust closures handed to the native library as
  * raw addresses, each recorded with the dropper function that frees it.
  * Handles such as the working-copy update editor and the repository
  * report keep a list of (baton, dropper) entries and call each dropper
  * when they are dropped.
  *
  * Addresses are natural numbers with 0 as null; a dropper call is recorded
  * as the entry it is called with. */
module Batons {
  import opened Common

  /** The raw address of a boxed baton. */
  type Ptr = nat

  const NULL: Ptr := 0

  /** The dropper functions of the crate, one per kind of boxed callback. */
  datatype Dropper =
    | DropFetchDirents
    | DropConflict
    | DropExternal
    | DropCancel
    | DropNotify
    | DropAuthzRead

  datatype Entry = Entry(baton: Ptr, dropper: Dropper)

  /** The entries with a non-null baton, in their original order: the
    * entries a drop loop calls the dropper for, and those a constructor
    * registers. */
  function NonNullEntries(entries: seq<Entry>): (r: seq<Entry>)
    ensures |r| <= |entries|
  {
    if entries == [] then []
    else if entries[0].baton == NULL then NonNullEntries(entries[1..])
    else [entries[0]] + NonNullEntries(entries[1..])
  }

  /** The filter keeps exactly the entries with a non-null baton. */
  lemma {:induction false} NonNullEntriesMembers(entries: seq<Entry>, e: Entry)
    ensures e in NonNullEntries(entries) <==> e in entries && e.baton != NULL
    decreases |entries|
  {
    if entries != [] {
      NonNullEntriesMembers(entries[1..], e);
      assert e in entries <==> e == entries[0] || e in entries[1..];
    }
  }

  /** Filtering distributes over concatenation. */
  lemma {:induction false} NonNullEntriesConcat(a: seq<Entry>, b: seq<Entry>)
    ensures NonNullEntries(a + b) == NonNullEntries(a) + NonNullEntries(b)
    decreases |a|
  {
    if a == [] {
      assert a + b == b;
    } else {
      assert (a + b)[0] == a[0] && (a + b)[1..] == a[1..] + b;
      NonNullEntriesConcat(a[1..], b);
    }
  }

  /** Filtering twice changes nothing: a handle built from registered
    * entries releases all of them. */
  lemma {:induction false} NonNullEntriesIdempotent(entries: seq<Entry>)
    ensures NonNullEntries(NonNullEntries(entries)) == NonNullEntries(entries)
    decreases |entries|
  {
    if entries != [] {
      NonNullEntriesIdempotent(entries[1..]);
      if entries[0].baton != NULL {
        var r := NonNullEntries(entries[1..]);
        assert ([entries[0]] + r)[1..] == r;
      }
    }
  }

  /** Freshly boxed callbacks never share an address. */
  predicate DistinctBatons(entries: seq<Entry>) {
    forall i, j :: 0 <= i < j < |entries| && entries[i].baton != NULL ==>
      entries[i].baton != entries[j].baton
  }

  /** Every boxed non-null baton is released exactly once, and nothing
    * else is released. */
  predicate ReleasedOnce(boxed: seq<Entry>, releases: seq<Entry>) {
    (forall e :: e in boxed && e.baton != NULL ==> multiset(releases)[e] == 1) &&
    (forall e :: e in releases ==> e in boxed && e.baton != NULL)
  }

  /** A non-null boxed baton that is never released. */
  predicate Leaks(boxed: seq<Entry>, releases: seq<Entry>) {
    exists e :: e in boxed && e.baton != NULL && e !in releases
  }

  /** Releasing the non-null entries of distinct batons releases each
    * exactly once. */
  lemma {:induction false} NonNullReleasedOnce(boxed: seq<Entry>)
    requires DistinctBatons(boxed)
    ensures ReleasedOnce(boxed, NonNullEntries(boxed))
    decreases |boxed|
  {
    if boxed != [] {
      var rest := boxed[1..];
      assert DistinctBatons(rest) by {
        forall i, j | 0 <= i < j < |rest| && rest[i].baton != NULL
          ensures rest[i].baton != rest[j].baton
        {
          assert rest[i] == boxed[i + 1] && rest[j] == boxed[j + 1];
        }
      }
      NonNullReleasedOnce(rest);
      var x := boxed[0];
      if x.baton != NULL {
        assert x !in rest by {
          forall k | 0 <= k < |rest| ensures rest[k] != x {
            assert rest[k] == boxed[k + 1];
          }
        }
        NonNullEntriesMembers(rest, x);
      }
    }
  }

  /** What a handle-building call leaves behind: the entries the returned
    * handle owns (`None` when it returned an error) and the droppers it
    * called itself. */
  datatype Outcome = Outcome(handed: Option<seq<Entry>>, freed: seq<Entry>)

  /** All releases over the life of the call: those it made, then those of
    * the returned handle's drop. */
  function Releases(o: Outcome): (r: seq<Entry>)
    ensures o.handed.None? ==> r == o.freed
  {
    o.freed + (if o.handed.Some? then NonNullEntries(o.handed.value) else [])
  }
}
