/** Exact-key grouping of listings, as both comparators do it: a listing's key
    is its `hotel_name` stripped and lower-cased, listings with the same key
    share a bucket, buckets keep input order, and keys are ordered by first
    occurrence (the insertion order of the Python dict that collects them).
    The live comparator drops the empty key; the older one keeps it. */
module Grouping {
  import opened Values
  import opened Text
  import opened Dicts
  import opened Listings

  /** `hotel_name.strip().lower()`; a missing name counts as `''`. (A name that
      is None is an error path of each comparator, not a key.) */
  function NameKey(h: Listing): (k: string)
    ensures IsStripped(k)
    ensures HasNoUpper(k)
    ensures !h.name.Present? ==> k == ""
  {
    match h.name
    case Present(s) => StripLowerCommute(s); Lower(Strip(s))
    case _ => ""
  }

  /** Some listing of `hs` has key `k`. */
  predicate Occurs(hs: seq<Listing>, key: Listing -> string, k: string) {
    exists i :: 0 <= i < |hs| && key(hs[i]) == k
  }

  lemma OccursPrefix(hs: seq<Listing>, key: Listing -> string, k: string)
    requires hs != []
    ensures Occurs(hs, key, k) <==> Occurs(hs[..|hs| - 1], key, k) || key(hs[|hs| - 1]) == k
  {
    var p := hs[..|hs| - 1];
    if Occurs(hs, key, k) && key(hs[|hs| - 1]) != k {
      var i :| 0 <= i < |hs| && key(hs[i]) == k;
      assert key(p[i]) == k;
    }
    if Occurs(p, key, k) {
      var i :| 0 <= i < |p| && key(p[i]) == k;
      assert key(hs[i]) == k;
    }
  }

  /** The group keys in order of first occurrence, each once. */
  function KeyOrder(hs: seq<Listing>, key: Listing -> string, dropEmpty: bool): (ks: seq<string>)
    ensures forall i, j :: 0 <= i < j < |ks| ==> ks[i] != ks[j]
  {
    if hs == [] then []
    else
      var ks := KeyOrder(hs[..|hs| - 1], key, dropEmpty);
      var k := key(hs[|hs| - 1]);
      if (dropEmpty && k == "") || k in ks then ks else ks + [k]
  }

  /** The group keys are exactly the keys some listing has, less the empty key
      when empty keys are dropped. */
  lemma {:induction false} KeyOrderMembers(hs: seq<Listing>, key: Listing -> string, dropEmpty: bool, k: string)
    ensures k in KeyOrder(hs, key, dropEmpty) <==> Occurs(hs, key, k) && !(dropEmpty && k == "")
  {
    if hs != [] {
      KeyOrderMembers(hs[..|hs| - 1], key, dropEmpty, k);
      OccursPrefix(hs, key, k);
    }
  }

  /** The listings of `hs` whose key is `k`, in input order. */
  function Bucket(hs: seq<Listing>, key: Listing -> string, k: string): (b: seq<Listing>)
    ensures |b| <= |hs|
  {
    if hs == [] then []
    else
      var h := hs[|hs| - 1];
      if key(h) == k then Bucket(hs[..|hs| - 1], key, k) + [h] else Bucket(hs[..|hs| - 1], key, k)
  }

  /** Every member of a bucket has the bucket's key. */
  lemma {:induction false} BucketKeys(hs: seq<Listing>, key: Listing -> string, k: string)
    ensures forall h :: h in Bucket(hs, key, k) ==> key(h) == k
  {
    if hs != [] {
      BucketKeys(hs[..|hs| - 1], key, k);
    }
  }

  /** A bucket holds every listing with its key as often as the input does. */
  lemma {:induction false} BucketCounts(hs: seq<Listing>, key: Listing -> string, k: string, h: Listing)
    requires key(h) == k
    ensures multiset(Bucket(hs, key, k))[h] == multiset(hs)[h]
  {
    if hs != [] {
      BucketCounts(hs[..|hs| - 1], key, k, h);
      assert hs == hs[..|hs| - 1] + [hs[|hs| - 1]];
    }
  }

  lemma KeyOrderSnoc(hs: seq<Listing>, key: Listing -> string, dropEmpty: bool, h: Listing)
    ensures var ks := KeyOrder(hs, key, dropEmpty);
      KeyOrder(hs + [h], key, dropEmpty) == if (dropEmpty && key(h) == "") || key(h) in ks then ks else ks + [key(h)]
  {
    assert (hs + [h])[..|hs|] == hs;
  }

  lemma BucketSnoc(hs: seq<Listing>, key: Listing -> string, h: Listing, k: string)
    ensures Bucket(hs + [h], key, k) == if key(h) == k then Bucket(hs, key, k) + [h] else Bucket(hs, key, k)
  {
    assert (hs + [h])[..|hs|] == hs;
  }

  /** One step of the grouping loop: a listing whose key is dropped changes
      nothing; otherwise it is appended to its key's bucket, and a key seen
      for the first time goes to the end of the order with a fresh bucket
      (`defaultdict(list)`). */
  function GroupStep(g: Dict<seq<Listing>>, key: Listing -> string, dropEmpty: bool, h: Listing): (g': Dict<seq<Listing>>)
    requires g.Valid()
    ensures g'.Valid()
  {
    var k := key(h);
    if dropEmpty && k == "" then g
    else g.Put(k, (if k in g.entries then g.entries[k] else []) + [h])
  }

  /** The dict the grouping loop builds, one listing at a time. */
  function Grouped(hs: seq<Listing>, key: Listing -> string, dropEmpty: bool): (d: Dict<seq<Listing>>)
    ensures d.Valid()
  {
    if hs == [] then Dict([], map[])
    else GroupStep(Grouped(hs[..|hs| - 1], key, dropEmpty), key, dropEmpty, hs[|hs| - 1])
  }

  /** The dict the loop builds is the declarative grouping: its keys are the
      group keys in first-occurrence order and each key holds its bucket. */
  lemma {:induction false} GroupedMeaning(hs: seq<Listing>, key: Listing -> string, dropEmpty: bool)
    ensures Grouped(hs, key, dropEmpty).order == KeyOrder(hs, key, dropEmpty)
    ensures forall k :: k in Grouped(hs, key, dropEmpty).entries ==>
      Grouped(hs, key, dropEmpty).entries[k] == Bucket(hs, key, k)
  {
    if hs != [] {
      var p, h := hs[..|hs| - 1], hs[|hs| - 1];
      assert hs == p + [h];
      GroupedMeaning(p, key, dropEmpty);
      KeyOrderSnoc(p, key, dropEmpty, h);
      GroupedStepMeaning(p, key, dropEmpty, h);
    }
  }

  /** One step of `GroupedMeaning`: if the dict for `hs` holds the buckets of
      `hs`, the dict one step later holds the buckets of `hs + [h]`. */
  lemma GroupedStepMeaning(hs: seq<Listing>, key: Listing -> string, dropEmpty: bool, h: Listing)
    requires Grouped(hs, key, dropEmpty).order == KeyOrder(hs, key, dropEmpty)
    requires forall k :: k in Grouped(hs, key, dropEmpty).entries ==>
      Grouped(hs, key, dropEmpty).entries[k] == Bucket(hs, key, k)
    ensures forall k :: k in Grouped(hs + [h], key, dropEmpty).entries ==>
      Grouped(hs + [h], key, dropEmpty).entries[k] == Bucket(hs + [h], key, k)
  {
    var g := Grouped(hs, key, dropEmpty);
    var k := key(h);
    assert (hs + [h])[..|hs|] == hs;
    var g' := Grouped(hs + [h], key, dropEmpty);
    assert g' == GroupStep(g, key, dropEmpty, h);
    if dropEmpty && k == "" {
      forall k' | k' in g'.entries ensures g'.entries[k'] == Bucket(hs + [h], key, k') {
        KeyOrderMembers(hs, key, dropEmpty, k');
        BucketSnoc(hs, key, h, k');
      }
    } else {
      var b := (if k in g.entries then g.entries[k] else []) + [h];
      assert g'.entries == g.entries[k := b];
      if k !in g.entries {
        KeyOrderMembers(hs, key, dropEmpty, k);
        BucketEmpty(hs, key, k);
      }
      forall k' | k' in g'.entries ensures g'.entries[k'] == Bucket(hs + [h], key, k') {
        BucketSnoc(hs, key, h, k');
      }
    }
  }

  // ---------------------------------------------------------------------------
  // What a grouping promises
  // ---------------------------------------------------------------------------

  /** A bucket is empty exactly when no listing has its key. */
  lemma {:induction false} BucketEmpty(hs: seq<Listing>, key: Listing -> string, k: string)
    ensures Bucket(hs, key, k) == [] <==> !Occurs(hs, key, k)
  {
    if hs != [] {
      BucketEmpty(hs[..|hs| - 1], key, k);
      OccursPrefix(hs, key, k);
    }
  }

  /** Buckets preserve input order: the bucket of a concatenation is the
      concatenation of the buckets. */
  lemma {:induction false} BucketAppend(a: seq<Listing>, b: seq<Listing>, key: Listing -> string, k: string)
    ensures Bucket(a + b, key, k) == Bucket(a, key, k) + Bucket(b, key, k)
  {
    if b == [] {
      assert a + b == a;
    } else {
      var h := b[|b| - 1];
      assert (a + b)[..|a + b| - 1] == a + b[..|b| - 1];
      BucketAppend(a, b[..|b| - 1], key, k);
    }
  }

  /** Every listing lands in the bucket of its own key, and that key is a
      group unless it is empty and empty keys are dropped. */
  lemma EveryListingGrouped(hs: seq<Listing>, key: Listing -> string, dropEmpty: bool, i: nat)
    requires i < |hs|
    requires !(dropEmpty && key(hs[i]) == "")
    ensures key(hs[i]) in Grouped(hs, key, dropEmpty).entries
    ensures hs[i] in Grouped(hs, key, dropEmpty).entries[key(hs[i])]
  {
    var k := key(hs[i]);
    GroupedMeaning(hs, key, dropEmpty);
    assert Occurs(hs, key, k);
    KeyOrderMembers(hs, key, dropEmpty, k);
    BucketCounts(hs, key, k, hs[i]);
    assert multiset(hs)[hs[i]] > 0;
  }

  /** Every group key is a key some listing has, every member of a group has
      that group's key, and no group is empty. */
  lemma GroupsAreExact(hs: seq<Listing>, key: Listing -> string, dropEmpty: bool, k: string)
    requires k in Grouped(hs, key, dropEmpty).entries
    ensures Occurs(hs, key, k) && !(dropEmpty && k == "")
    ensures Grouped(hs, key, dropEmpty).entries[k] != []
    ensures forall h :: h in Grouped(hs, key, dropEmpty).entries[k] ==> key(h) == k
  {
    GroupedMeaning(hs, key, dropEmpty);
    KeyOrderMembers(hs, key, dropEmpty, k);
    BucketEmpty(hs, key, k);
    BucketKeys(hs, key, k);
  }

  /** Number of listings with a non-empty key. */
  function CountKeyed(hs: seq<Listing>, key: Listing -> string): (n: nat)
    ensures n <= |hs|
  {
    if hs == [] then 0
    else CountKeyed(hs[..|hs| - 1], key) + (if key(hs[|hs| - 1]) != "" then 1 else 0)
  }

  /** Total size of the buckets of the keys `ks`. */
  function BucketSizes(hs: seq<Listing>, key: Listing -> string, ks: seq<string>): nat {
    if ks == [] then 0 else BucketSizes(hs, key, ks[..|ks| - 1]) + |Bucket(hs, key, ks[|ks| - 1])|
  }

  lemma {:induction false} SizesUnchanged(hs: seq<Listing>, key: Listing -> string, h: Listing, ks: seq<string>)
    requires key(h) !in ks
    ensures BucketSizes(hs + [h], key, ks) == BucketSizes(hs, key, ks)
  {
    if ks != [] {
      assert (hs + [h])[..|hs + [h]| - 1] == hs;
      SizesUnchanged(hs, key, h, ks[..|ks| - 1]);
    }
  }

  lemma {:induction false} SizesGrow(hs: seq<Listing>, key: Listing -> string, h: Listing, ks: seq<string>)
    requires key(h) in ks
    requires forall i, j :: 0 <= i < j < |ks| ==> ks[i] != ks[j]
    ensures BucketSizes(hs + [h], key, ks) == BucketSizes(hs, key, ks) + 1
  {
    var p := ks[..|ks| - 1];
    assert (hs + [h])[..|hs + [h]| - 1] == hs;
    if ks[|ks| - 1] == key(h) {
      assert key(h) !in p;
      SizesUnchanged(hs, key, h, p);
    } else {
      assert key(h) in p;
      SizesGrow(hs, key, h, p);
    }
  }

  /** The groups partition the listings they admit: their sizes add up to the
      number of listings with a non-empty key when empty keys are dropped, and
      to the number of all listings when they are kept. */
  lemma {:induction false} GroupedSizes(hs: seq<Listing>, key: Listing -> string, dropEmpty: bool)
    ensures BucketSizes(hs, key, KeyOrder(hs, key, dropEmpty)) == if dropEmpty then CountKeyed(hs, key) else |hs|
  {
    if hs != [] {
      var p, h := hs[..|hs| - 1], hs[|hs| - 1];
      var ks := KeyOrder(p, key, dropEmpty);
      var k := key(h);
      assert hs == p + [h];
      GroupedSizes(p, key, dropEmpty);
      if dropEmpty && k == "" {
        KeyOrderMembers(p, key, dropEmpty, k);
        SizesUnchanged(p, key, h, ks);
      } else if k in ks {
        SizesGrow(p, key, h, ks);
      } else {
        SizesUnchanged(p, key, h, ks);
        assert (ks + [k])[..|ks + [k]| - 1] == ks;
        KeyOrderMembers(p, key, dropEmpty, k);
        BucketEmpty(p, key, k);
        assert Bucket(hs, key, k) == [h];
      }
    }
  }

  /** Index of the first listing with key `k`. */
  function FirstIndex(hs: seq<Listing>, key: Listing -> string, k: string): (i: nat)
    requires Occurs(hs, key, k)
    ensures i < |hs| && key(hs[i]) == k
    ensures forall j :: 0 <= j < i ==> key(hs[j]) != k
  {
    OccursPrefix(hs, key, k);
    var p := hs[..|hs| - 1];
    if Occurs(p, key, k) then
      var i := FirstIndex(p, key, k);
      assert forall j :: 0 <= j < i ==> hs[j] == p[j];
      i
    else
      assert forall j :: 0 <= j < |p| ==> key(p[j]) != k;
      |hs| - 1
  }

  /** Keys are ordered by first occurrence: a key listed earlier first occurs
      earlier in the input. */
  lemma {:induction false} KeysInFirstOccurrenceOrder(hs: seq<Listing>, key: Listing -> string, dropEmpty: bool, a: nat, b: nat)
    requires a < b < |KeyOrder(hs, key, dropEmpty)|
    ensures var ks := KeyOrder(hs, key, dropEmpty);
      && Occurs(hs, key, ks[a]) && Occurs(hs, key, ks[b])
      && FirstIndex(hs, key, ks[a]) < FirstIndex(hs, key, ks[b])
  {
    var ks := KeyOrder(hs, key, dropEmpty);
    var p, h := hs[..|hs| - 1], hs[|hs| - 1];
    var ks' := KeyOrder(p, key, dropEmpty);
    var ka, kb := ks[a], ks[b];
    KeyOrderMembers(hs, key, dropEmpty, ka);
    KeyOrderMembers(hs, key, dropEmpty, kb);
    KeyOrderMembers(p, key, dropEmpty, ka);
    KeyOrderMembers(p, key, dropEmpty, kb);
    OccursPrefix(hs, key, ka);
    OccursPrefix(hs, key, kb);
    if b < |ks'| {
      KeysInFirstOccurrenceOrder(p, key, dropEmpty, a, b);
      FirstIndexPrefix(hs, key, ka);
      FirstIndexPrefix(hs, key, kb);
    } else {
      assert kb == key(h) && kb !in ks';
      assert !Occurs(p, key, kb);
      assert FirstIndex(hs, key, kb) == |hs| - 1;
      FirstIndexPrefix(hs, key, ka);
    }
  }

  lemma FirstIndexPrefix(hs: seq<Listing>, key: Listing -> string, k: string)
    requires hs != [] && Occurs(hs[..|hs| - 1], key, k)
    ensures Occurs(hs, key, k) && FirstIndex(hs, key, k) == FirstIndex(hs[..|hs| - 1], key, k)
  {
    OccursPrefix(hs, key, k);
  }
}
