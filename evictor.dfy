/**
 * The LRU cache evictor of the download cache, with its pin exemption.
 *
 * The evictor keeps the evictable spans in a set ordered by last touch time
 * (the `leastRecentlyUsed` TreeSet), a byte counter for the evictable spans
 * (`currentSize`) and one for the pinned spans (`downloadSize`). The TreeSet
 * is modelled by a sequence kept strictly sorted by the same comparator; as in a
 * TreeSet, two spans the comparator calls equal (same timestamp, key and
 * position) occupy one slot.
 *
 * Every callback is specified by a function on `EvictorState`; the class
 * methods are proved to change their fields exactly as those functions say, and
 * the lemmas below state what the source promises about the functions.
 */
module Evictor {

  /** The media library's "length unknown" sentinel (C.LENGTH_UNSET). */
  const LENGTH_UNSET: int := -1

  /** One cached byte range of a content key. */
  datatype CacheSpan = CacheSpan(key: string, position: int, length: int, lastTouchTimestamp: int)

  /**
   * What the database and preferences say at the moment of a callback:
   * the keys of downloaded songs, the keys of favourited songs, and the
   * "download favourites" preference.
   */
  datatype Pins = Pins(downloaded: set<string>, favourited: set<string>, downloadFavourites: bool)

  /** The `shouldSkip` test: a pinned span is kept out of the LRU set. */
  predicate IsExempt(pins: Pins, key: string)
  {
    key in pins.downloaded || (pins.downloadFavourites && key in pins.favourited)
  }

  // ---------------------------------------------------------------------------
  // The eviction order
  // ---------------------------------------------------------------------------

  /** A sign-valued key comparison by code point: character by character, a proper prefix first. */
  function CompareStrings(a: string, b: string): (r: int)
    ensures -1 <= r <= 1
  {
    if a == [] && b == [] then 0
    else if a == [] then -1
    else if b == [] then 1
    else if a[0] < b[0] then -1
    else if a[0] > b[0] then 1
    else CompareStrings(a[1..], b[1..])
  }

  /** Two keys compare equal exactly when they are the same string. */
  lemma {:induction false} CompareStringsZero(a: string, b: string)
    ensures CompareStrings(a, b) == 0 <==> a == b
  {
    if a != [] && b != [] && a[0] == b[0] {
      CompareStringsZero(a[1..], b[1..]);
      assert a == [a[0]] + a[1..] && b == [b[0]] + b[1..];
    }
  }

  /** The span's natural order (CacheSpan.compareTo): key first, then position. */
  function NaturalCompare(lhs: CacheSpan, rhs: CacheSpan): int
  {
    if lhs.key != rhs.key then CompareStrings(lhs.key, rhs.key)
    else if lhs.position == rhs.position then 0
    else if lhs.position < rhs.position then -1 else 1
  }

  /** The comparator of the LRU set: older touch first, ties by the natural order. */
  function LruCompare(lhs: CacheSpan, rhs: CacheSpan): int
  {
    var lastTouchTimestampDelta := lhs.lastTouchTimestamp - rhs.lastTouchTimestamp;
    if lastTouchTimestampDelta == 0 then NaturalCompare(lhs, rhs)
    else if lhs.lastTouchTimestamp < rhs.lastTouchTimestamp then -1 else 1
  }

  /** Two spans the comparator cannot tell apart: one slot of the TreeSet. */
  predicate SameSlot(a: CacheSpan, b: CacheSpan)
  {
    a.lastTouchTimestamp == b.lastTouchTimestamp && a.key == b.key && a.position == b.position
  }

  predicate Before(a: CacheSpan, b: CacheSpan)
  {
    LruCompare(a, b) < 0
  }

  lemma {:induction false} CompareStringsFlip(a: string, b: string)
    ensures CompareStrings(b, a) == -CompareStrings(a, b)
  {
    if a != [] && b != [] && a[0] == b[0] {
      CompareStringsFlip(a[1..], b[1..]);
    }
  }

  lemma {:induction false} CompareStringsTransitive(a: string, b: string, c: string)
    requires CompareStrings(a, b) < 0 && CompareStrings(b, c) < 0
    ensures CompareStrings(a, c) < 0
  {
    if a != [] && b != [] && c != [] && a[0] == b[0] && b[0] == c[0] {
      CompareStringsTransitive(a[1..], b[1..], c[1..]);
    }
  }

  /** The comparator returns -1, 0 or 1, and 0 exactly on spans of one slot. */
  lemma LruCompareZero(a: CacheSpan, b: CacheSpan)
    ensures -1 <= LruCompare(a, b) <= 1
    ensures LruCompare(a, b) == 0 <==> SameSlot(a, b)
  {
    CompareStringsZero(a.key, b.key);
  }

  lemma LruCompareFlip(a: CacheSpan, b: CacheSpan)
    ensures LruCompare(b, a) == -LruCompare(a, b)
  {
    CompareStringsFlip(a.key, b.key);
  }

  lemma LruCompareTransitive(a: CacheSpan, b: CacheSpan, c: CacheSpan)
    requires Before(a, b) && Before(b, c)
    ensures Before(a, c)
  {
    if a.lastTouchTimestamp == b.lastTouchTimestamp == c.lastTouchTimestamp
       && a.key != b.key && b.key != c.key {
      CompareStringsTransitive(a.key, b.key, c.key);
      CompareStringsZero(a.key, c.key);
    }
  }

  /** Spans of one slot compare alike against every other span. */
  lemma SameSlotCompareAlike(a: CacheSpan, b: CacheSpan, c: CacheSpan)
    requires SameSlot(a, b)
    ensures LruCompare(a, c) == LruCompare(b, c)
  {
  }

  /**
   * The eviction order is a strict total order on slots, and a smaller
   * last-touch timestamp always comes first.
   */
  lemma EvictionOrderIsStrictTotal(a: CacheSpan, b: CacheSpan, c: CacheSpan)
    ensures !Before(a, a)
    ensures Before(a, b) ==> !Before(b, a)
    ensures Before(a, b) && Before(b, c) ==> Before(a, c)
    ensures Before(a, b) || Before(b, a) || SameSlot(a, b)
    ensures a.lastTouchTimestamp < b.lastTouchTimestamp ==> Before(a, b)
    ensures a.lastTouchTimestamp == b.lastTouchTimestamp ==> (Before(a, b) <==> NaturalCompare(a, b) < 0)
  {
    LruCompareFlip(a, b);
    LruCompareZero(a, b);
    if Before(a, b) && Before(b, c) {
      LruCompareTransitive(a, b, c);
    }
  }

  // ---------------------------------------------------------------------------
  // The ordered set
  // ---------------------------------------------------------------------------

  /** Strictly ascending in the eviction order: at most one span per slot. */
  ghost predicate Sorted(s: seq<CacheSpan>)
  {
    forall i, j {:trigger Before(s[i], s[j])} :: 0 <= i < j < |s| ==> Before(s[i], s[j])
  }

  /** Some element of `s` sits in the same slot as `x`. */
  ghost predicate HasSlot(s: seq<CacheSpan>, x: CacheSpan)
  {
    exists y :: y in s && SameSlot(y, x)
  }

  /** TreeSet.add: insert in order, unless the slot is already taken. */
  function Insert(s: seq<CacheSpan>, x: CacheSpan): seq<CacheSpan>
  {
    if s == [] then [x]
    else
      var c := LruCompare(x, s[0]);
      if c < 0 then [x] + s
      else if c == 0 then s
      else [s[0]] + Insert(s[1..], x)
  }

  /** TreeSet.remove: drop the element of the slot of `x`, if any. */
  function Delete(s: seq<CacheSpan>, x: CacheSpan): seq<CacheSpan>
  {
    if s == [] then []
    else if LruCompare(x, s[0]) == 0 then s[1..]
    else [s[0]] + Delete(s[1..], x)
  }

  /** Total length of the spans of a sequence. */
  function Bytes(s: seq<CacheSpan>): int
  {
    if s == [] then 0 else s[0].length + Bytes(s[1..])
  }

  lemma SortedTail(s: seq<CacheSpan>)
    requires Sorted(s) && s != []
    ensures Sorted(s[1..])
    ensures forall y :: y in s[1..] ==> Before(s[0], y)
  {
    forall y | y in s[1..] ensures Before(s[0], y) {
      var j :| 0 <= j < |s[1..]| && s[1..][j] == y;
      assert s[j + 1] == y;
    }
  }

  lemma SortedCons(a: CacheSpan, t: seq<CacheSpan>)
    requires Sorted(t)
    requires forall y :: y in t ==> Before(a, y)
    ensures Sorted([a] + t)
  {
    var s := [a] + t;
    forall i, j | 0 <= i < j < |s| ensures Before(s[i], s[j]) {
      if i == 0 {
        assert s[j] == t[j - 1];
        assert s[j] in t;
      } else {
        assert s[i] == t[i - 1] && s[j] == t[j - 1];
      }
    }
  }

  /** In a sorted sequence a span's slot holds that span and no other. */
  lemma SortedSlotUnique(s: seq<CacheSpan>, x: CacheSpan, y: CacheSpan)
    requires Sorted(s) && x in s && y in s && SameSlot(x, y)
    ensures x == y
  {
    var i :| 0 <= i < |s| && s[i] == x;
    var j :| 0 <= j < |s| && s[j] == y;
    if i < j {
      assert Before(s[i], s[j]);
    } else if j < i {
      assert Before(s[j], s[i]);
    }
    LruCompareZero(x, y);
    LruCompareFlip(x, y);
  }

  /** A span ordered before the first element is ordered before all of them, and shares no slot. */
  lemma BeforeFirstBeforeAll(s: seq<CacheSpan>, x: CacheSpan)
    requires Sorted(s) && s != [] && Before(x, s[0])
    ensures forall y :: y in s ==> Before(x, y) && !SameSlot(y, x)
  {
    SortedTail(s);
    forall y | y in s ensures Before(x, y) && !SameSlot(y, x) {
      if y != s[0] {
        assert y in s[1..];
        LruCompareTransitive(x, s[0], y);
      }
      LruCompareZero(x, y);
    }
  }

  /** A span ordered after the first element has its slot in the set only if it is in the tail. */
  lemma HasSlotPastFirst(s: seq<CacheSpan>, x: CacheSpan)
    requires s != [] && LruCompare(x, s[0]) > 0
    ensures HasSlot(s, x) <==> HasSlot(s[1..], x)
  {
    LruCompareZero(x, s[0]);
    assert s == [s[0]] + s[1..];
    if HasSlot(s, x) {
      var y :| y in s && SameSlot(y, x);
      assert y != s[0];
      assert y in s[1..];
    }
    if HasSlot(s[1..], x) {
      var y :| y in s[1..] && SameSlot(y, x);
      assert y in s;
    }
  }

  /** Insertion adds nothing but the span itself. */
  lemma {:induction false} InsertMembers(s: seq<CacheSpan>, x: CacheSpan)
    ensures forall y :: y in Insert(s, x) ==> y in s || y == x
  {
    if s != [] && LruCompare(x, s[0]) > 0 {
      InsertMembers(s[1..], x);
    }
  }

  /** `TreeSet.add` keeps the set ordered. */
  lemma {:induction false} InsertKeepsSorted(s: seq<CacheSpan>, x: CacheSpan)
    requires Sorted(s)
    ensures Sorted(Insert(s, x))
  {
    if s != [] {
      var c := LruCompare(x, s[0]);
      if c < 0 {
        BeforeFirstBeforeAll(s, x);
        SortedCons(x, s);
      } else if c > 0 {
        var t := s[1..];
        SortedTail(s);
        LruCompareFlip(x, s[0]);
        InsertKeepsSorted(t, x);
        InsertMembers(t, x);
        forall y | y in Insert(t, x) ensures Before(s[0], y) {
          if y != x { assert y in t; }
        }
        SortedCons(s[0], Insert(t, x));
      }
    }
  }

  /** `TreeSet.add` of a span whose slot is taken leaves the set as it is. */
  lemma {:induction false} InsertTakenSlot(s: seq<CacheSpan>, x: CacheSpan)
    requires Sorted(s) && HasSlot(s, x)
    ensures Insert(s, x) == s
  {
    var c := LruCompare(x, s[0]);
    if c < 0 {
      BeforeFirstBeforeAll(s, x);
      assert false;
    } else if c > 0 {
      HasSlotPastFirst(s, x);
      SortedTail(s);
      InsertTakenSlot(s[1..], x);
      assert s == [s[0]] + s[1..];
    }
  }

  /** `TreeSet.add` of a span whose slot is free adds exactly that span. */
  lemma {:induction false} InsertFreeSlot(s: seq<CacheSpan>, x: CacheSpan)
    requires !HasSlot(s, x)
    ensures multiset(Insert(s, x)) == multiset(s) + multiset{x}
  {
    if s != [] {
      assert s[0] in s;
      LruCompareZero(x, s[0]);
      if LruCompare(x, s[0]) > 0 {
        var t := s[1..];
        assert forall y :: y in t ==> y in s;
        InsertFreeSlot(t, x);
        assert s == [s[0]] + t;
      }
    }
  }

  /**
   * Adding a span keeps the set ordered; if its slot is free the span joins
   * the set and nothing else changes, and if the slot is taken the set is
   * left as it was.
   */
  lemma InsertSpec(s: seq<CacheSpan>, x: CacheSpan)
    requires Sorted(s)
    ensures Sorted(Insert(s, x))
    ensures HasSlot(s, x) ==> Insert(s, x) == s
    ensures !HasSlot(s, x) ==> multiset(Insert(s, x)) == multiset(s) + multiset{x}
  {
    InsertKeepsSorted(s, x);
    if HasSlot(s, x) {
      InsertTakenSlot(s, x);
    } else {
      InsertFreeSlot(s, x);
    }
  }

  /** A span that joins the set adds its length to the bytes of the set. */
  lemma {:induction false} InsertAddsBytes(s: seq<CacheSpan>, x: CacheSpan)
    requires !HasSlot(s, x)
    ensures Bytes(Insert(s, x)) == Bytes(s) + x.length
  {
    if s != [] {
      LruCompareZero(x, s[0]);
      var t := s[1..];
      assert s[0] in s;
      if LruCompare(x, s[0]) < 0 {
        assert ([x] + s)[1..] == s;
      } else if LruCompare(x, s[0]) == 0 {
        assert false;
      } else {
        assert !HasSlot(t, x) by {
          forall y | y in t ensures !SameSlot(y, x) {
            assert y in s;
          }
        }
        InsertAddsBytes(t, x);
        assert ([s[0]] + Insert(t, x))[1..] == Insert(t, x);
      }
    }
  }

  /**
   * Removing keeps the set ordered and drops exactly the span of the slot of
   * `x`: every other span stays, and an empty slot leaves the set alone.
   */
  lemma {:induction false} DeleteSpec(s: seq<CacheSpan>, x: CacheSpan)
    requires Sorted(s)
    ensures Sorted(Delete(s, x))
    ensures forall y :: y in Delete(s, x) <==> y in s && !SameSlot(y, x)
    ensures !HasSlot(s, x) ==> Delete(s, x) == s
    ensures x in s ==> Bytes(Delete(s, x)) == Bytes(s) - x.length
    ensures |Delete(s, x)| == if HasSlot(s, x) then |s| - 1 else |s|
  {
    if s == [] {
    } else {
      var t := s[1..];
      assert s == [s[0]] + t;
      SortedTail(s);
      LruCompareZero(x, s[0]);
      if LruCompare(x, s[0]) == 0 {
        assert SameSlot(s[0], x) && s[0] in s;
        forall y | y in t ensures !SameSlot(y, x) {
          LruCompareZero(s[0], y);
          if SameSlot(y, x) {
            SameSlotCompareAlike(y, s[0], y);
            LruCompareZero(y, y);
          }
        }
        if x in s {
          assert x == s[0];
        }
      } else {
        DeleteSpec(t, x);
        forall y | y in Delete(t, x) ensures Before(s[0], y) {
        }
        SortedCons(s[0], Delete(t, x));
        assert HasSlot(s, x) <==> HasSlot(t, x) by {
          if HasSlot(s, x) {
            var y :| y in s && SameSlot(y, x);
            if y == s[0] { assert false; }
            assert y in t;
          }
          if HasSlot(t, x) {
            var y :| y in t && SameSlot(y, x);
            assert y in s;
          }
        }
      }
    }
  }

  /** The first span is the globally oldest one: removing it removes the head. */
  lemma FirstIsOldest(s: seq<CacheSpan>)
    requires Sorted(s) && s != []
    ensures forall y :: y in s && y != s[0] ==> Before(s[0], y)
    ensures Delete(s, s[0]) == s[1..]
  {
    SortedTail(s);
    LruCompareZero(s[0], s[0]);
  }

  lemma BytesOfPrefix(s: seq<CacheSpan>, k: nat)
    requires 1 <= k <= |s|
    ensures Bytes(s[..k]) == s[0].length + Bytes(s[1..][..k - 1])
  {
    assert s[..k][1..] == s[1..][..k - 1];
  }

  /** A sorted sequence is a prefix followed by a suffix, and every span of the prefix comes first. */
  lemma PrefixBeforeRest(s: seq<CacheSpan>, t: seq<CacheSpan>)
    requires Sorted(s) && |t| <= |s| && t == s[|s| - |t|..]
    ensures s == s[..|s| - |t|] + t
    ensures forall e, y :: e in s[..|s| - |t|] && y in t ==> Before(e, y)
  {
    var n := |s| - |t|;
    assert s == s[..n] + s[n..];
    forall e, y | e in s[..n] && y in t ensures Before(e, y) {
      var i :| 0 <= i < n && s[..n][i] == e;
      var j :| 0 <= j < |t| && t[j] == y;
      assert s[i] == e && s[n + j] == y;
    }
  }

  lemma {:induction false} BytesSplit(s: seq<CacheSpan>, k: nat)
    requires k <= |s|
    ensures Bytes(s) == Bytes(s[..k]) + Bytes(s[k..])
  {
    if k > 0 {
      BytesSplit(s[1..], k - 1);
      assert s[..k][1..] == s[1..][..k - 1];
      assert s[1..][k - 1..] == s[k..];
    }
  }

  // ---------------------------------------------------------------------------
  // The callbacks as functions on the evictor's state
  // ---------------------------------------------------------------------------

  /** The evictor's fields: the LRU set and the two byte counters. */
  datatype EvictorState = EvictorState(lru: seq<CacheSpan>, currentSize: int, downloadSize: int)

  /**
   * `evictCache`: while the evictable bytes plus the required space exceed the
   * budget and the set is not empty, the oldest span is removed through the
   * cache, which calls back `onSpanRemoved`. It drops the shortest prefix of
   * the set (the oldest spans) after which the budget holds, or all of it.
   */
  function Evict(maxBytes: int, st: EvictorState, requiredSpace: int): (r: EvictorState)
    decreases |st.lru|
    ensures |r.lru| <= |st.lru|
    ensures r.downloadSize == st.downloadSize
    ensures r.currentSize + requiredSpace <= maxBytes || r.lru == []
    ensures st.currentSize + requiredSpace <= maxBytes ==> r == st
  {
    if st.currentSize + requiredSpace > maxBytes && st.lru != [] then
      Evict(maxBytes, RemoveFirst(st), requiredSpace)
    else
      st
  }

  /** One round of eviction: what `onSpanRemoved` does to the first span of the set. */
  function RemoveFirst(st: EvictorState): (r: EvictorState)
    requires st.lru != []
  {
    st.(lru := st.lru[1..], currentSize := st.currentSize - st.lru[0].length)
  }

  /** Removing the first span through `onSpanRemoved` is exactly one round of eviction. */
  lemma RemoveFirstIsSpanRemoved(st: EvictorState)
    requires st.lru != []
    ensures RemoveFirst(st) == SpanRemoved(st, st.lru[0])
  {
    LruCompareZero(st.lru[0], st.lru[0]);
  }

  /** Eviction lowers `currentSize` by exactly the bytes that leave the set. */
  lemma {:induction false} EvictSubtractsEvicted(maxBytes: int, st: EvictorState, requiredSpace: int)
    ensures var r := Evict(maxBytes, st, requiredSpace);
      r.currentSize == st.currentSize - (Bytes(st.lru) - Bytes(r.lru))
    decreases |st.lru|
  {
    if st.currentSize + requiredSpace > maxBytes && st.lru != [] {
      EvictSubtractsEvicted(maxBytes, RemoveFirst(st), requiredSpace);
    }
  }

  /**
   * The evicted prefix is the shortest one after which the budget holds:
   * before each removal the budget was still exceeded.
   */
  lemma {:induction false} EvictDropsFewest(maxBytes: int, st: EvictorState, requiredSpace: int, k: nat)
    requires k < |st.lru| - |Evict(maxBytes, st, requiredSpace).lru|
    ensures st.currentSize - Bytes(st.lru[..k]) + requiredSpace > maxBytes
    decreases |st.lru|
  {
    if k > 0 {
      var next := RemoveFirst(st);
      EvictDropsFewest(maxBytes, next, requiredSpace, k - 1);
      BytesOfPrefix(st.lru, k);
    }
  }

  /** `onSpanRemoved`: take the span's slot out of the set, and always subtract its length. */
  function SpanRemoved(st: EvictorState, span: CacheSpan): EvictorState
  {
    st.(lru := Delete(st.lru, span), currentSize := st.currentSize - span.length)
  }

  /**
   * `onSpanAdded`: a pinned span only adds to `downloadSize`; any other span
   * joins the set, adds to `currentSize`, and eviction runs with no required space.
   */
  function SpanAdded(maxBytes: int, st: EvictorState, span: CacheSpan, pins: Pins): EvictorState
  {
    if IsExempt(pins, span.key) then
      st.(downloadSize := st.downloadSize + span.length)
    else
      Evict(maxBytes, st.(lru := Insert(st.lru, span), currentSize := st.currentSize + span.length), 0)
  }

  /** `onStartFile`: make room for a write of known length. */
  function StartFile(maxBytes: int, st: EvictorState, length: int): EvictorState
  {
    if length != LENGTH_UNSET then Evict(maxBytes, st, length) else st
  }

  /** The events the cache delivers to the evictor. */
  datatype Event =
    | Added(span: CacheSpan, pins: Pins)
    | Removed(span: CacheSpan)
    | Touched(oldSpan: CacheSpan, newSpan: CacheSpan, pins: Pins)
    | FileStarted(key: string, position: int, length: int)

  /** One callback; a touch is a removal of the old span followed by an addition of the new one. */
  function Apply(maxBytes: int, st: EvictorState, e: Event): EvictorState
  {
    match e
    case Added(span, pins) => SpanAdded(maxBytes, st, span, pins)
    case Removed(span) => SpanRemoved(st, span)
    case Touched(oldSpan, newSpan, pins) => SpanAdded(maxBytes, SpanRemoved(st, oldSpan), newSpan, pins)
    case FileStarted(_, _, length) => StartFile(maxBytes, st, length)
  }

  /** A stream of callbacks, delivered one after the other. */
  function Run(maxBytes: int, st: EvictorState, events: seq<Event>): EvictorState
    decreases |events|
  {
    if events == [] then st else Run(maxBytes, Apply(maxBytes, st, events[0]), events[1..])
  }

  /** Spans in the cache have non-negative length. */
  predicate WellFormed(e: Event)
  {
    match e
    case Added(span, _) => span.length >= 0
    case Removed(span) => span.length >= 0
    case Touched(oldSpan, newSpan, _) => oldSpan.length >= 0 && newSpan.length >= 0
    case FileStarted(_, _, _) => true
  }

  /** The budget holds, or every remaining tracked byte is pinned. */
  predicate WithinBudget(maxBytes: int, st: EvictorState)
  {
    st.currentSize <= maxBytes || st.lru == []
  }

  /** `currentSize` is exactly the bytes of the spans in the set. */
  predicate Accurate(st: EvictorState)
  {
    st.currentSize == Bytes(st.lru)
  }

  // ---------------------------------------------------------------------------
  // Properties of the callbacks
  // ---------------------------------------------------------------------------

  /** A pinned span never enters the set, leaves `currentSize` alone and adds its length to `downloadSize`. */
  lemma ExemptSpanSkipsSet(maxBytes: int, st: EvictorState, span: CacheSpan, pins: Pins)
    requires IsExempt(pins, span.key)
    ensures SpanAdded(maxBytes, st, span, pins).lru == st.lru
    ensures SpanAdded(maxBytes, st, span, pins).currentSize == st.currentSize
    ensures SpanAdded(maxBytes, st, span, pins).downloadSize == st.downloadSize + span.length
  {
  }

  /** Adding a span that is not pinned keeps the set ordered. */
  lemma AddedSpanKeepsOrder(maxBytes: int, st: EvictorState, span: CacheSpan, pins: Pins)
    requires Sorted(st.lru) && !IsExempt(pins, span.key)
    ensures Sorted(SpanAdded(maxBytes, st, span, pins).lru)
  {
    var mid := st.(lru := Insert(st.lru, span), currentSize := st.currentSize + span.length);
    InsertKeepsSorted(st.lru, span);
    EvictKeepsSorted(maxBytes, mid, 0);
  }

  /**
   * After a span that is not pinned is added, the eviction that follows leaves
   * the budget met or the set empty, and `downloadSize` untouched.
   */
  lemma AddedSpanMeetsBudget(maxBytes: int, st: EvictorState, span: CacheSpan, pins: Pins)
    requires !IsExempt(pins, span.key)
    ensures SpanAdded(maxBytes, st, span, pins).currentSize <= maxBytes || SpanAdded(maxBytes, st, span, pins).lru == []
    ensures SpanAdded(maxBytes, st, span, pins).downloadSize == st.downloadSize
  {
    var mid := st.(lru := Insert(st.lru, span), currentSize := st.currentSize + span.length);
    assert SpanAdded(maxBytes, st, span, pins) == Evict(maxBytes, mid, 0);
  }

  /**
   * A span that is not pinned, whose slot is free and which fits in the
   * budget, joins the set and is counted, and nothing is evicted.
   */
  lemma AddedSpanIsTracked(maxBytes: int, st: EvictorState, span: CacheSpan, pins: Pins)
    requires !IsExempt(pins, span.key) && !HasSlot(st.lru, span)
    requires st.currentSize + span.length <= maxBytes
    ensures SpanAdded(maxBytes, st, span, pins).lru == Insert(st.lru, span)
    ensures span in SpanAdded(maxBytes, st, span, pins).lru
    ensures SpanAdded(maxBytes, st, span, pins).currentSize == st.currentSize + span.length
  {
    var mid := st.(lru := Insert(st.lru, span), currentSize := st.currentSize + span.length);
    assert SpanAdded(maxBytes, st, span, pins) == mid;
    InsertJoins(st.lru, span);
  }

  /** A span whose slot is free is in the set after it is added. */
  lemma InsertJoins(s: seq<CacheSpan>, x: CacheSpan)
    requires !HasSlot(s, x)
    ensures x in Insert(s, x)
  {
    InsertFreeSlot(s, x);
    assert x in multiset(Insert(s, x));
  }

  /**
   * Removal takes out the span's slot, if present, and nothing else; it always
   * subtracts the span's length and never changes `downloadSize`.
   */
  lemma RemovedSpanEffect(st: EvictorState, span: CacheSpan)
    requires Sorted(st.lru)
    ensures var r := SpanRemoved(st, span);
      && Sorted(r.lru)
      && (forall y :: y in r.lru <==> y in st.lru && !SameSlot(y, span))
      && (!HasSlot(st.lru, span) ==> r.lru == st.lru)
      && r.currentSize == st.currentSize - span.length
      && r.downloadSize == st.downloadSize
  {
    DeleteSpec(st.lru, span);
  }

  /** Eviction leaves a suffix of the set: it only ever takes spans off the front. */
  lemma {:induction false} EvictLeavesSuffix(maxBytes: int, st: EvictorState, requiredSpace: int)
    ensures var r := Evict(maxBytes, st, requiredSpace);
      r.lru == st.lru[|st.lru| - |r.lru|..]
    decreases |st.lru|
  {
    if st.currentSize + requiredSpace > maxBytes && st.lru != [] {
      var r := Evict(maxBytes, st, requiredSpace);
      EvictLeavesSuffix(maxBytes, RemoveFirst(st), requiredSpace);
      assert st.lru[1..][|st.lru| - 1 - |r.lru|..] == st.lru[|st.lru| - |r.lru|..];
    }
  }

  /** A suffix of an ordered sequence is ordered. */
  lemma SortedSuffix(s: seq<CacheSpan>, t: seq<CacheSpan>)
    requires Sorted(s) && |t| <= |s| && t == s[|s| - |t|..]
    ensures Sorted(t)
  {
    var n := |s| - |t|;
    forall i, j | 0 <= i < j < |t| ensures Before(t[i], t[j]) {
      assert t[i] == s[n + i] && t[j] == s[n + j];
    }
  }

  lemma EvictKeepsSorted(maxBytes: int, st: EvictorState, requiredSpace: int)
    requires Sorted(st.lru)
    ensures Sorted(Evict(maxBytes, st, requiredSpace).lru)
  {
    EvictLeavesSuffix(maxBytes, st, requiredSpace);
    SortedSuffix(st.lru, Evict(maxBytes, st, requiredSpace).lru);
  }

  /**
   * Eviction removes spans oldest first: every evicted span comes before every
   * span that stays, and nothing is evicted when the budget already holds.
   */
  lemma EvictionTakesOldest(maxBytes: int, st: EvictorState, requiredSpace: int)
    requires Sorted(st.lru)
    ensures var r := Evict(maxBytes, st, requiredSpace);
      var evicted := st.lru[..|st.lru| - |r.lru|];
      && st.lru == evicted + r.lru
      && (forall e, y :: e in evicted && y in r.lru ==> Before(e, y))
      && (st.currentSize + requiredSpace <= maxBytes ==> evicted == [])
  {
    var r := Evict(maxBytes, st, requiredSpace);
    EvictLeavesSuffix(maxBytes, st, requiredSpace);
    PrefixBeforeRest(st.lru, r.lru);
  }

  /** `onStartFile` with an unknown length changes nothing; otherwise it makes room for `length` bytes. */
  lemma StartFileMakesRoom(maxBytes: int, st: EvictorState, length: int)
    ensures length == LENGTH_UNSET ==> StartFile(maxBytes, st, length) == st
    ensures length != LENGTH_UNSET ==>
      StartFile(maxBytes, st, length).currentSize + length <= maxBytes || StartFile(maxBytes, st, length).lru == []
    ensures StartFile(maxBytes, st, length).downloadSize == st.downloadSize
  {
  }

  /** No callback ever lowers `downloadSize`; only the addition of a pinned span raises it. */
  lemma DownloadSizeNeverShrinks(maxBytes: int, st: EvictorState, e: Event)
    requires WellFormed(e)
    ensures Apply(maxBytes, st, e).downloadSize >= st.downloadSize
    ensures !e.Added? && !e.Touched? ==> Apply(maxBytes, st, e).downloadSize == st.downloadSize
  {
  }

  lemma {:induction false} EvictKeepsBudget(maxBytes: int, st: EvictorState, requiredSpace: int)
    requires WithinBudget(maxBytes, st)
    ensures WithinBudget(maxBytes, Evict(maxBytes, st, requiredSpace))
  {
  }

  /** Every callback keeps the set ordered and the budget (or an empty set). */
  lemma ApplyKeepsInvariant(maxBytes: int, st: EvictorState, e: Event)
    requires Sorted(st.lru) && WithinBudget(maxBytes, st) && WellFormed(e)
    ensures Sorted(Apply(maxBytes, st, e).lru) && WithinBudget(maxBytes, Apply(maxBytes, st, e))
  {
    match e
    case Added(span, pins) =>
      if !IsExempt(pins, span.key) {
        AddedSpanKeepsOrder(maxBytes, st, span, pins);
        AddedSpanMeetsBudget(maxBytes, st, span, pins);
      }
    case Removed(span) =>
      DeleteSpec(st.lru, span);
    case Touched(oldSpan, newSpan, pins) =>
      DeleteSpec(st.lru, oldSpan);
      var mid := SpanRemoved(st, oldSpan);
      if !IsExempt(pins, newSpan.key) {
        AddedSpanKeepsOrder(maxBytes, mid, newSpan, pins);
        AddedSpanMeetsBudget(maxBytes, mid, newSpan, pins);
      }
    case FileStarted(_, _, length) =>
      if length != LENGTH_UNSET {
        EvictKeepsSorted(maxBytes, st, length);
        EvictKeepsBudget(maxBytes, st, length);
      }
  }

  /**
   * For every stream of callbacks from an ordered state within budget (the
   * empty evictor among them), the set stays ordered, the evictable bytes stay
   * within the budget or the set is empty, and `downloadSize` never shrinks.
   */
  lemma {:induction false} RunKeepsInvariant(maxBytes: int, st: EvictorState, events: seq<Event>)
    requires Sorted(st.lru) && WithinBudget(maxBytes, st)
    requires forall i :: 0 <= i < |events| ==> WellFormed(events[i])
    ensures Sorted(Run(maxBytes, st, events).lru)
    ensures WithinBudget(maxBytes, Run(maxBytes, st, events))
    ensures Run(maxBytes, st, events).downloadSize >= st.downloadSize
    decreases |events|
  {
    if events != [] {
      var next := Apply(maxBytes, st, events[0]);
      ApplyKeepsInvariant(maxBytes, st, events[0]);
      DownloadSizeNeverShrinks(maxBytes, st, events[0]);
      RunKeepsInvariant(maxBytes, next, events[1..]);
    }
  }

  /**
   * An event the set can account for: a removal names a span in the set, an
   * addition fills a free slot, and a touch does both in turn.
   */
  ghost predicate Tracked(st: EvictorState, e: Event)
  {
    match e
    case Added(span, _) => !HasSlot(st.lru, span)
    case Removed(span) => span in st.lru
    case Touched(oldSpan, newSpan, _) => oldSpan in st.lru && !HasSlot(Delete(st.lru, oldSpan), newSpan)
    case FileStarted(_, _, _) => true
  }

  /** A stream of events each of which is tracked in the state it reaches. */
  ghost predicate TrackedRun(maxBytes: int, st: EvictorState, events: seq<Event>)
    decreases |events|
  {
    events == [] || (Tracked(st, events[0]) && TrackedRun(maxBytes, Apply(maxBytes, st, events[0]), events[1..]))
  }

  /** One tracked callback keeps the byte count exact. */
  lemma AccountingKeptByTrackedEvents(maxBytes: int, st: EvictorState, e: Event)
    requires Sorted(st.lru) && Accurate(st) && Tracked(st, e)
    ensures Accurate(Apply(maxBytes, st, e))
  {
    match e
    case Added(span, pins) => AddKeepsAccounting(maxBytes, st, span, pins);
    case Removed(span) => DeleteSpec(st.lru, span);
    case Touched(oldSpan, newSpan, pins) =>
      DeleteSpec(st.lru, oldSpan);
      AddKeepsAccounting(maxBytes, SpanRemoved(st, oldSpan), newSpan, pins);
    case FileStarted(_, _, length) => EvictKeepsAccounting(maxBytes, st, length);
  }

  /**
   * Over a stream of tracked callbacks, `currentSize` stays equal to the bytes
   * of the spans in the set.
   */
  lemma {:induction false} RunKeepsAccounting(maxBytes: int, st: EvictorState, events: seq<Event>)
    requires Sorted(st.lru) && WithinBudget(maxBytes, st) && Accurate(st)
    requires forall i :: 0 <= i < |events| ==> WellFormed(events[i])
    requires TrackedRun(maxBytes, st, events)
    ensures Accurate(Run(maxBytes, st, events))
    decreases |events|
  {
    if events != [] {
      var next := Apply(maxBytes, st, events[0]);
      AccountingKeptByTrackedEvents(maxBytes, st, events[0]);
      ApplyKeepsInvariant(maxBytes, st, events[0]);
      RunKeepsAccounting(maxBytes, next, events[1..]);
    }
  }

  lemma AddKeepsAccounting(maxBytes: int, st: EvictorState, span: CacheSpan, pins: Pins)
    requires Accurate(st) && !HasSlot(st.lru, span)
    ensures Accurate(SpanAdded(maxBytes, st, span, pins))
  {
    if !IsExempt(pins, span.key) {
      InsertAddsBytes(st.lru, span);
      GrowthThenEvictKeepsAccounting(maxBytes, st, Insert(st.lru, span), span.length);
    }
  }

  lemma GrowthThenEvictKeepsAccounting(maxBytes: int, st: EvictorState, lru: seq<CacheSpan>, length: int)
    requires Bytes(lru) == st.currentSize + length
    ensures Accurate(Evict(maxBytes, st.(lru := lru, currentSize := st.currentSize + length), 0))
  {
    EvictKeepsAccounting(maxBytes, st.(lru := lru, currentSize := st.currentSize + length), 0);
  }

  lemma EvictKeepsAccounting(maxBytes: int, st: EvictorState, requiredSpace: int)
    requires Accurate(st)
    ensures Accurate(Evict(maxBytes, st, requiredSpace))
  {
    EvictSubtractsEvicted(maxBytes, st, requiredSpace);
  }

  /**
   * As written, `onSpanRemoved` subtracts the length of a span that is not in
   * the set, such as a pinned one: `currentSize` then falls below the bytes
   * actually in the set, by the span's length.
   */
  lemma RemovingUntrackedSpanUndercounts(st: EvictorState, span: CacheSpan)
    requires Sorted(st.lru) && Accurate(st) && !HasSlot(st.lru, span)
    ensures SpanRemoved(st, span).lru == st.lru
    ensures SpanRemoved(st, span).currentSize == Bytes(st.lru) - span.length
  {
    DeleteSpec(st.lru, span);
  }

  /**
   * The frequent case of that drift: a read of pinned content touches a span
   * that is not in the set. The touch subtracts the old span's length from
   * `currentSize`, leaves the set alone and adds the new span's length to
   * `downloadSize`.
   */
  lemma TouchOfPinnedDrifts(maxBytes: int, st: EvictorState, oldSpan: CacheSpan, newSpan: CacheSpan, pins: Pins)
    requires Sorted(st.lru) && !HasSlot(st.lru, oldSpan) && IsExempt(pins, newSpan.key)
    ensures Apply(maxBytes, st, Touched(oldSpan, newSpan, pins)).lru == st.lru
    ensures Apply(maxBytes, st, Touched(oldSpan, newSpan, pins)).currentSize == st.currentSize - oldSpan.length
    ensures Apply(maxBytes, st, Touched(oldSpan, newSpan, pins)).downloadSize == st.downloadSize + newSpan.length
  {
    DeleteSpec(st.lru, oldSpan);
  }

  /**
   * A concrete consequence: after a pinned span of 500 bytes is added and
   * removed, an evictable span of 1500 bytes survives a 1000-byte budget.
   */
  lemma PinnedRemovalLetsBudgetSlip()
    ensures var pinned := CacheSpan("pinned", 0, 500, 1);
      var free := CacheSpan("free", 0, 1500, 2);
      var pins := Pins({"pinned"}, {}, false);
      var st := Run(1000, EvictorState([], 0, 0),
                    [Added(pinned, pins), Removed(pinned), Added(free, pins)]);
      st.lru == [free] && Bytes(st.lru) == 1500 && st.currentSize == 1000
  {
    var pinned := CacheSpan("pinned", 0, 500, 1);
    var free := CacheSpan("free", 0, 1500, 2);
    var pins := Pins({"pinned"}, {}, false);
    var s0 := EvictorState([], 0, 0);
    var s1 := Apply(1000, s0, Added(pinned, pins));
    assert s1 == EvictorState([], 0, 500);
    var s2 := Apply(1000, s1, Removed(pinned));
    assert s2 == EvictorState([], -500, 500);
    var mid := EvictorState([free], 1000, 500);
    assert Insert([], free) == [free];
    assert !IsExempt(pins, free.key) by {
      assert |free.key| != |pinned.key|;
    }
    assert s2.(lru := Insert(s2.lru, free), currentSize := s2.currentSize + free.length) == mid;
    var s3 := Apply(1000, s2, Added(free, pins));
    assert s3 == Evict(1000, mid, 0);
    assert s3 == mid;
    var events := [Added(pinned, pins), Removed(pinned), Added(free, pins)];
    assert events[1..] == [Removed(pinned), Added(free, pins)];
    assert events[1..][1..] == [Added(free, pins)];
    assert Run(1000, s3, []) == s3;
    assert Run(1000, s2, [Added(free, pins)]) == s3;
    assert Run(1000, s1, events[1..]) == s3;
    assert Run(1000, s0, events) == s3;
  }

  /**
   * Pinned bytes do not count against the budget: two evictable spans of 500
   * and 400 bytes and a pinned one of 300 stay within a 1000-byte budget with
   * nothing evicted, although the cache then holds 1200 bytes.
   */
  lemma PinnedBytesOutsideBudget()
    ensures var a := CacheSpan("a", 0, 500, 1);
      var b := CacheSpan("b", 0, 400, 2);
      var c := CacheSpan("c", 0, 300, 3);
      var pins := Pins({"c"}, {}, false);
      var st := Run(1000, EvictorState([], 0, 0), [Added(a, pins), Added(b, pins), Added(c, pins)]);
      st == EvictorState([a, b], 900, 300) && st.currentSize + st.downloadSize > 1000
  {
    var a := CacheSpan("a", 0, 500, 1);
    var b := CacheSpan("b", 0, 400, 2);
    var c := CacheSpan("c", 0, 300, 3);
    var pins := Pins({"c"}, {}, false);
    assert !IsExempt(pins, "a") && !IsExempt(pins, "b") by {
      assert "a"[0] != "c"[0] && "b"[0] != "c"[0];
    }
    var s0 := EvictorState([], 0, 0);
    assert Insert([], a) == [a];
    var s1 := Apply(1000, s0, Added(a, pins));
    assert s1 == Evict(1000, EvictorState([a], 500, 0), 0);
    assert s1 == EvictorState([a], 500, 0);
    assert Insert([a], b) == [a, b] by {
      assert LruCompare(b, a) == 1;
      assert [a][1..] == [];
    }
    var s2 := Apply(1000, s1, Added(b, pins));
    assert s2 == Evict(1000, EvictorState([a, b], 900, 0), 0);
    assert s2 == EvictorState([a, b], 900, 0);
    var s3 := Apply(1000, s2, Added(c, pins));
    assert s3 == EvictorState([a, b], 900, 300);
    var events := [Added(a, pins), Added(b, pins), Added(c, pins)];
    assert events[1..] == [Added(b, pins), Added(c, pins)];
    assert events[1..][1..] == [Added(c, pins)];
    assert Run(1000, s3, []) == s3;
    assert Run(1000, s2, [Added(c, pins)]) == s3;
    assert Run(1000, s1, events[1..]) == s3;
    assert Run(1000, s0, events) == s3;
  }

  // ---------------------------------------------------------------------------
  // The evictor object
  // ---------------------------------------------------------------------------

  /** The app-wide download service object; the evictor writes its `downloadsSize`. */
  class Downloader {
    var downloadsSize: int

    constructor ()
      ensures downloadsSize == 0
    {
      downloadsSize := 0;
    }
  }

  class DownloadEvictor {
    const maxBytes: int
    const downloader: Downloader
    var leastRecentlyUsed: seq<CacheSpan>
    var currentSize: int
    var downloadSize: int

    ghost predicate Valid()
      reads this
    {
      Sorted(leastRecentlyUsed)
    }

    function State(): EvictorState
      reads this
    {
      EvictorState(leastRecentlyUsed, currentSize, downloadSize)
    }

    constructor (maxBytes: int, downloader: Downloader)
      ensures Valid()
      ensures this.maxBytes == maxBytes && this.downloader == downloader
      ensures State() == EvictorState([], 0, 0)
    {
      this.maxBytes := maxBytes;
      this.downloader := downloader;
      leastRecentlyUsed := [];
      currentSize := 0;
      downloadSize := 0;
    }

    method OnSpanAdded(span: CacheSpan, pins: Pins)
      requires Valid()
      modifies this, downloader
      ensures Valid()
      ensures State() == SpanAdded(maxBytes, old(State()), span, pins)
      ensures IsExempt(pins, span.key) ==> downloader.downloadsSize == downloadSize
      ensures !IsExempt(pins, span.key) ==> downloader.downloadsSize == old(downloader.downloadsSize)
    {
      var shouldSkip := span.key in pins.downloaded || (pins.downloadFavourites && span.key in pins.favourited);
      if shouldSkip {
        downloadSize := downloadSize + span.length;
        downloader.downloadsSize := downloadSize;
      } else {
        InsertSpec(leastRecentlyUsed, span);
        leastRecentlyUsed := Insert(leastRecentlyUsed, span);
        currentSize := currentSize + span.length;
        EvictCache(0);
      }
    }

    method OnSpanRemoved(span: CacheSpan)
      requires Valid()
      modifies this
      ensures Valid()
      ensures State() == SpanRemoved(old(State()), span)
    {
      DeleteSpec(leastRecentlyUsed, span);
      leastRecentlyUsed := Delete(leastRecentlyUsed, span);
      currentSize := currentSize - span.length;
    }

    method OnSpanTouched(oldSpan: CacheSpan, newSpan: CacheSpan, pins: Pins)
      requires Valid()
      modifies this, downloader
      ensures Valid()
      ensures State() == SpanAdded(maxBytes, SpanRemoved(old(State()), oldSpan), newSpan, pins)
      ensures IsExempt(pins, newSpan.key) ==> downloader.downloadsSize == downloadSize
      ensures !IsExempt(pins, newSpan.key) ==> downloader.downloadsSize == old(downloader.downloadsSize)
    {
      OnSpanRemoved(oldSpan);
      OnSpanAdded(newSpan, pins);
    }

    function RequiresCacheSpanTouches(): (r: bool)
      ensures r
    {
      true
    }

    method OnCacheInitialized()
      ensures State() == old(State())
    {
    }

    method OnStartFile(key: string, position: int, length: int)
      requires Valid()
      modifies this
      ensures Valid()
      ensures State() == StartFile(maxBytes, old(State()), length)
    {
      if length != LENGTH_UNSET {
        EvictCache(length);
      }
    }

    /** Each round asks the cache to remove the first span; the cache calls back `OnSpanRemoved`. */
    method EvictCache(requiredSpace: int)
      requires Valid()
      modifies this
      ensures Valid()
      ensures State() == Evict(maxBytes, old(State()), requiredSpace)
    {
      while currentSize + requiredSpace > maxBytes && leastRecentlyUsed != []
        invariant Valid()
        invariant Evict(maxBytes, State(), requiredSpace) == Evict(maxBytes, old(State()), requiredSpace)
        decreases |leastRecentlyUsed|
      {
        ghost var before := State();
        FirstIsOldest(leastRecentlyUsed);
        RemoveFirstIsSpanRemoved(before);
        OnSpanRemoved(leastRecentlyUsed[0]);
        assert State() == RemoveFirst(before);
      }
    }
  }
}
