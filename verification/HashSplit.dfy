// The one split rule of the repository: hold out the h items least by (hash of ref, ref).
module HashSplit {
  import opened Collections
  import opened Ordering

  type Hash = Text -> Text

  function RankOf<T>(ref: T -> Text, hash: Hash): T -> (Text, Text)
  {
    (x: T) => (hash(ref(x)), ref(x))
  }

  function Ranked<T>(items: seq<T>, ref: T -> Text, hash: Hash): seq<T>
  {
    Sort(items, ByKey(RankOf(ref, hash)))
  }

  // The refs of ranked[:h].
  function FirstRefs<T>(items: seq<T>, ref: T -> Text, h: nat, hash: Hash): set<Text>
  {
    var ranked := Ranked(items, ref, hash);
    set i | 0 <= i < |ranked| && i < h :: ref(ranked[i])
  }

  predicate Before(hash: Hash, a: Text, b: Text)
  {
    a != b && PairLeq((hash(a), a), (hash(b), b))
  }

  // How an item compares with a given ref.
  function Earlier<T>(ref: T -> Text, hash: Hash, r: Text): T -> bool
  {
    (x: T) => Before(hash, ref(x), r)
  }

  lemma RankedMeaning<T(!new)>(items: seq<T>, ref: T -> Text, hash: Hash)
    requires KeysDistinct(items, ref)
    ensures multiset(Ranked(items, ref, hash)) == multiset(items) && KeysDistinct(Ranked(items, ref, hash), ref)
    ensures |Ranked(items, ref, hash)| == |items|
    ensures forall i, j | 0 <= i < j < |Ranked(items, ref, hash)| ::
              var s := Ranked(items, ref, hash); Before(hash, ref(s[i]), ref(s[j])) && !Before(hash, ref(s[j]), ref(s[i]))
  {
    hide PairLeq;
    var key := RankOf(ref, hash);
    var s := Ranked(items, ref, hash);
    KeyOrder(key);
    SortPermutes(items, ByKey(key));
    SortSorted(items, ByKey(key));
    KeysDistinctPermuted(items, s, ref);
    forall i, j | 0 <= i < j < |s| ensures Before(hash, ref(s[i]), ref(s[j])) && !Before(hash, ref(s[j]), ref(s[i])) {
      assert ByKey(key)(s[i], s[j]);
      PairOrder(key(s[i]), key(s[j]), key(s[j]));
    }
  }

  // Exactly i items rank before the item at rank i.
  lemma PlaceOf<T(!new)>(items: seq<T>, ref: T -> Text, hash: Hash, i: nat)
    requires KeysDistinct(items, ref) && i < |Ranked(items, ref, hash)|
    ensures CountIf(items, Earlier(ref, hash, ref(Ranked(items, ref, hash)[i]))) == i
  {
    hide Before, Sort;
    var s := Ranked(items, ref, hash);
    var earlier := Earlier(ref, hash, ref(s[i]));
    RankedMeaning(items, ref, hash);
    CountPermuted(s, items, earlier);
    NotBeforeItself(hash, ref(s[i]));
    CountAll(s[..i], earlier, true);
    CountAll(s[i..], earlier, false);
    CountAppend(s[..i], s[i..], earlier);
    assert s == s[..i] + s[i..];
  }

  lemma NotBeforeItself(hash: Hash, a: Text)
    ensures !Before(hash, a, a)
  {
  }

  // An item is held out exactly when fewer than h items rank before it.
  lemma FirstExact<T(!new)>(items: seq<T>, ref: T -> Text, h: nat, hash: Hash, x: T)
    requires KeysDistinct(items, ref) && x in items
    ensures ref(x) in FirstRefs(items, ref, h, hash) <==> CountIf(items, Earlier(ref, hash, ref(x))) < h
  {
    hide Before, Sort, Earlier;
    var s := Ranked(items, ref, hash);
    RankedMeaning(items, ref, hash);
    MembersPermuted(s, items);
    var i :| 0 <= i < |s| && s[i] == x;
    PlaceOf(items, ref, hash, i);
    if ref(x) in FirstRefs(items, ref, h, hash) {
      var j :| 0 <= j < |s| && j < h && ref(s[j]) == ref(x);
      SameKeySameIndex(s, ref, i, j);
    }
  }

  lemma SameKeySameIndex<T>(s: seq<T>, key: T -> Text, i: nat, j: nat)
    requires KeysDistinct(s, key) && i < |s| && j < |s| && key(s[i]) == key(s[j])
    ensures i == j
  {
  }

  lemma FirstAmong<T(!new)>(items: seq<T>, ref: T -> Text, h: nat, hash: Hash, r: Text)
    requires r in FirstRefs(items, ref, h, hash)
    ensures exists x :: x in items && ref(x) == r
  {
    var s := Ranked(items, ref, hash);
    SortPermutes(items, ByKey(RankOf(ref, hash)));
    var i :| 0 <= i < |s| && i < h && ref(s[i]) == r;
    EachAmong(items, s);
    assert s[i] in items && ref(s[i]) == r;
  }

  lemma FirstSize<T(!new)>(items: seq<T>, ref: T -> Text, h: nat, hash: Hash)
    requires KeysDistinct(items, ref)
    ensures |FirstRefs(items, ref, h, hash)| == if h < |items| then h else |items|
  {
    hide Before, Sort;
    RankedMeaning(items, ref, hash);
    var s := Ranked(items, ref, hash);
    var n := if h < |items| then h else |items|;
    PrefixSize(s, ref, n);
    assert FirstRefs(items, ref, h, hash) == set i | 0 <= i < |s| && i < n :: ref(s[i]);
  }

  lemma {:induction false} PrefixSize<T>(s: seq<T>, key: T -> Text, n: nat)
    requires KeysDistinct(s, key) && n <= |s|
    ensures |set i | 0 <= i < |s| && i < n :: key(s[i])| == n
  {
    var all := set i | 0 <= i < |s| && i < n :: key(s[i]);
    if n > 0 {
      PrefixSize(s, key, n - 1);
      var less := set i | 0 <= i < |s| && i < n - 1 :: key(s[i]);
      assert all == less + {key(s[n - 1])};
    } else {
      assert all == {};
    }
  }

  lemma FirstNested<T>(items: seq<T>, ref: T -> Text, h: nat, more: nat, hash: Hash)
    requires h <= more
    ensures FirstRefs(items, ref, h, hash) <= FirstRefs(items, ref, more, hash)
  {
  }

  lemma FirstPermuted<T(!new)>(items: seq<T>, shuffled: seq<T>, ref: T -> Text, h: nat, hash: Hash)
    requires KeysDistinct(items, ref) && multiset(items) == multiset(shuffled)
    ensures FirstRefs(items, ref, h, hash) == FirstRefs(shuffled, ref, h, hash)
  {
    hide Sort;
    forall i, j | 0 <= i < |items| && 0 <= j < |items| && RankOf(ref, hash)(items[i]) == RankOf(ref, hash)(items[j])
      ensures items[i] == items[j]
    {
      SameKeySameIndex(items, ref, i, j);
    }
    KeyedSortCanonical(items, shuffled, RankOf(ref, hash));
  }
}
