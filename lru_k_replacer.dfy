/**
 * The LRU-K replacer: a logical clock, a bounded access history per frame
 * index and the set of evictable frame indices.
 *
 * The value-level part (ReplacerState and the functions over it) is the
 * specification; the class LRUKReplacer keeps the same state in fields and
 * its methods are proved to follow the specification.
 */
module LruK {
  import opened Common

  /**
   * A backward distance. `Infinite` is the `Long.MAX_VALUE` sentinel that
   * the source uses for a frame with fewer than k recorded accesses.
   */
  datatype Distance = Finite(n: int) | Infinite

  /** `a > b` between distances. */
  predicate Farther(a: Distance, b: Distance) {
    match a
    case Infinite => b.Finite?
    case Finite(x) => b.Finite? && x > b.n
  }

  /**
   * The replacement test of the eviction scan: a candidate with distance `d`
   * and oldest access `o` replaces the best so far, `(md, mo)`, when it is
   * strictly farther, or equally far with a strictly older first access.
   */
  predicate Precedes(d: Distance, o: int, md: Distance, mo: int) {
    Farther(d, md) || (d == md && o < mo)
  }

  datatype ReplacerState = ReplacerState(
    k: int,
    history: map<int, seq<int>>,  // frame index -> timestamps, oldest first
    evictable: set<int>,
    clock: int)

  function HistoryOf(s: ReplacerState, f: int): seq<int> {
    if f in s.history then s.history[f] else []
  }

  /** The single `pollFirst` of `recordAccess`: drop the oldest entry, if any, when more than k are held. */
  function Trimmed(h: seq<int>, k: int): seq<int> {
    if |h| > k && h != [] then h[1..] else h
  }

  /** `recordAccess(f)`: tick the clock, append the tick to f's history, drop at most one oldest entry. */
  function Accessed(s: ReplacerState, f: int): ReplacerState {
    var c := s.clock + 1;
    s.(clock := c, history := s.history[f := Trimmed(HistoryOf(s, f) + [c], s.k)])
  }

  /** `setEvictable(f, b)`. */
  function WithEvictable(s: ReplacerState, f: int, b: bool): ReplacerState {
    s.(evictable := if b then s.evictable + {f} else s.evictable - {f})
  }

  /** `remove(f)`, and the removal of a victim by `evict`. */
  function Removed(s: ReplacerState, f: int): ReplacerState {
    s.(history := s.history - {f}, evictable := s.evictable - {f})
  }

  ghost predicate Increasing(h: seq<int>) {
    forall i, j :: 0 <= i < j < |h| ==> h[i] < h[j]
  }

  /**
   * A well-formed history: strictly increasing ticks of the clock so far;
   * with k >= 1 it holds between 1 and k entries, and with k < 1 the single
   * `pollFirst` always empties it.
   */
  ghost predicate HistoryOk(h: seq<int>, k: int, clock: int) {
    Increasing(h) &&
    (forall i :: 0 <= i < |h| ==> 1 <= h[i] <= clock) &&
    (if k >= 1 then 1 <= |h| <= k else h == [])
  }

  /** Every tick goes to one frame, so no two frames share a timestamp. */
  ghost predicate Disjoint(history: map<int, seq<int>>) {
    forall f, g, i, j ::
      f in history && g in history && f != g && 0 <= i < |history[f]| && 0 <= j < |history[g]|
      ==> history[f][i] != history[g][j]
  }

  /** The replacer's invariant. */
  ghost predicate Inv(s: ReplacerState) {
    0 <= s.clock &&
    (forall f :: f in s.history ==> HistoryOk(s.history[f], s.k, s.clock)) &&
    Disjoint(s.history)
  }

  ghost predicate Tracked(s: ReplacerState, f: int) {
    f in s.history && s.history[f] != []
  }

  /**
   * What the eviction scan needs in order not to dereference a missing or
   * empty history: every evictable frame has at least one recorded access.
   */
  ghost predicate Scannable(s: ReplacerState) {
    forall f :: f in s.evictable ==> Tracked(s, f)
  }

  /** Distance as the source computes it: from the NEWEST timestamp, once the history holds k entries. */
  function DistanceOf(s: ReplacerState, f: int): Distance
    requires Tracked(s, f)
  {
    var h := s.history[f];
    if |h| >= s.k then Finite(s.clock - h[|h| - 1]) else Infinite
  }

  function OldestOf(s: ReplacerState, f: int): int
    requires Tracked(s, f)
  {
    s.history[f][0]
  }

  ghost predicate Outranks(s: ReplacerState, f: int, g: int)
    requires Tracked(s, f) && Tracked(s, g)
  {
    Precedes(DistanceOf(s, f), OldestOf(s, f), DistanceOf(s, g), OldestOf(s, g))
  }

  /** `v` is a member of `frames` that no member of `frames` outranks. */
  ghost predicate TopRanked(s: ReplacerState, frames: set<int>, v: int)
    requires Scannable(s) && frames <= s.evictable
  {
    v in frames && forall f :: f in frames ==> !Outranks(s, f, v)
  }

  /** `v` is a frame the scan may return: evictable, and outranked by no evictable frame. */
  ghost predicate IsVictim(s: ReplacerState, v: int)
    requires Scannable(s)
  {
    TopRanked(s, s.evictable, v)
  }

  lemma PrecedesTransitive(d1: Distance, o1: int, d2: Distance, o2: int, d3: Distance, o3: int)
    requires Precedes(d1, o1, d2, o2) && Precedes(d2, o2, d3, o3)
    ensures Precedes(d1, o1, d3, o3)
  {
  }

  /** Every non-empty set of scannable frames has a member that no other member outranks. */
  lemma {:induction false} TopRankedExists(s: ReplacerState, frames: set<int>)
    requires Scannable(s) && frames <= s.evictable && frames != {}
    ensures exists v :: TopRanked(s, frames, v)
    decreases frames
  {
    var x := Choose(frames);
    assert !Outranks(s, x, x);
    if frames == {x} {
      assert TopRanked(s, frames, x);
    } else {
      TopRankedExists(s, frames - {x});
      var m :| TopRanked(s, frames - {x}, m);
      if Outranks(s, x, m) {
        forall f | f in frames
          ensures !Outranks(s, f, x)
        {
          if f != x && Outranks(s, f, x) {
            assert f in frames - {x};
            PrecedesTransitive(DistanceOf(s, f), OldestOf(s, f), DistanceOf(s, x), OldestOf(s, x),
                               DistanceOf(s, m), OldestOf(s, m));
          }
        }
        assert TopRanked(s, frames, x);
      } else {
        assert TopRanked(s, frames, m);
      }
    }
  }

  /** Under the invariant, two frames never tie completely, so the victim is unique. */
  lemma VictimUnique(s: ReplacerState, v: int, w: int)
    requires Inv(s) && Scannable(s)
    requires IsVictim(s, v) && IsVictim(s, w)
    ensures v == w
  {
  }

  /** The frame `evict` returns. */
  ghost function Victim(s: ReplacerState): (v: int)
    requires Scannable(s) && s.evictable != {}
    ensures IsVictim(s, v)
  {
    TopRankedExists(s, s.evictable);
    var v :| TopRanked(s, s.evictable, v); v
  }

  /**
   * The selection rule: the victim has the largest distance; among equal
   * distances it has the oldest first access; and when some evictable frame
   * has fewer than k accesses (infinite distance), so does the victim.
   */
  lemma VictimRule(s: ReplacerState, f: int)
    requires Scannable(s) && s.evictable != {} && f in s.evictable
    ensures var v := Victim(s);
      !Farther(DistanceOf(s, f), DistanceOf(s, v)) &&
      (DistanceOf(s, f) == DistanceOf(s, v) ==> OldestOf(s, v) <= OldestOf(s, f)) &&
      (|s.history[f]| < s.k ==> |s.history[v]| < s.k)
  {
    var v := Victim(s);
    assert !Outranks(s, f, v);
  }

  /** Appending a newer tick and trimming keeps a history well formed; every entry is old or the new tick. */
  lemma TrimmedAppendOk(prev: seq<int>, k: int, clock: int)
    requires 0 <= clock && Increasing(prev) && (forall i :: 0 <= i < |prev| ==> 1 <= prev[i] <= clock)
    requires if k >= 1 then |prev| <= k else prev == []
    ensures var h := Trimmed(prev + [clock + 1], k);
      HistoryOk(h, k, clock + 1) && forall i :: 0 <= i < |h| ==> h[i] == clock + 1 || h[i] in prev
  {
    var longer := prev + [clock + 1];
    assert forall i :: 0 <= i < |prev| ==> longer[i] == prev[i];
    assert Increasing(longer);
  }

  /** `recordAccess` keeps the invariant: the new tick exceeds every recorded timestamp. */
  lemma AccessedKeepsInv(s: ReplacerState, f: int)
    requires Inv(s)
    ensures Inv(Accessed(s, f))
  {
    var r := Accessed(s, f);
    var prev := HistoryOf(s, f);
    if f in s.history {
      assert HistoryOk(s.history[f], s.k, s.clock);
    }
    TrimmedAppendOk(prev, s.k, s.clock);
    forall g | g in r.history && g != f
      ensures HistoryOk(r.history[g], s.k, r.clock)
    {
      assert r.history[g] == s.history[g];
      assert HistoryOk(s.history[g], s.k, s.clock);
    }
    AccessedKeepsDisjoint(s, f);
  }

  /** The new tick is in no other frame's history, and f's older entries were already disjoint from them. */
  lemma AccessedKeepsDisjoint(s: ReplacerState, f: int)
    requires Inv(s)
    ensures Disjoint(Accessed(s, f).history)
  {
    var r := Accessed(s, f);
    var c := r.clock;
    var prev := HistoryOf(s, f);
    if f in s.history {
      assert HistoryOk(s.history[f], s.k, s.clock);
    }
    TrimmedAppendOk(prev, s.k, s.clock);
    var h := r.history[f];
    forall g, i, j | g in r.history && f != g && 0 <= i < |h| && 0 <= j < |r.history[g]|
      ensures h[i] != r.history[g][j] && r.history[g][j] != h[i]
    {
      assert r.history[g] == s.history[g];
      assert HistoryOk(s.history[g], s.k, s.clock);
      if h[i] != c {
        var m :| 0 <= m < |prev| && prev[m] == h[i];
      }
    }
    assert forall g :: g in r.history && g != f ==> r.history[g] == s.history[g];
  }

  lemma RemovedKeepsInv(s: ReplacerState, f: int)
    requires Inv(s)
    ensures Inv(Removed(s, f))
  {
    var r := Removed(s, f);
    assert forall g :: g in r.history ==> g in s.history && r.history[g] == s.history[g];
  }

  /**
   * `recordAccess(f)` ticks the clock once and makes the tick f's newest
   * entry; with k >= 1 the history stays within k entries, and only when it
   * already held k is its oldest entry dropped. Nothing else changes.
   */
  lemma AccessedAppendsNewest(s: ReplacerState, f: int)
    requires Inv(s) && s.k >= 1
    ensures var r := Accessed(s, f); var prev := HistoryOf(s, f);
      r.clock == s.clock + 1 && r.k == s.k && r.evictable == s.evictable &&
      f in r.history && 1 <= |r.history[f]| <= s.k &&
      r.history[f][|r.history[f]| - 1] == r.clock &&
      (|prev| < s.k ==> r.history[f] == prev + [r.clock]) &&
      (|prev| == s.k ==> r.history[f] == prev[1..] + [r.clock]) &&
      (forall g :: g != f ==> HistoryOf(r, g) == HistoryOf(s, g) && (g in r.history <==> g in s.history))
  {
    var prev := HistoryOf(s, f);
    if f in s.history {
      assert HistoryOk(s.history[f], s.k, s.clock);
    }
    assert |prev| <= s.k;
    if |prev| == s.k {
      assert (prev + [s.clock + 1])[1..] == prev[1..] + [s.clock + 1];
    }
  }

  /** `setEvictable` and `remove` touch only what they name; the clock never moves. */
  lemma EvictableAndRemoveFrames(s: ReplacerState, f: int, b: bool)
    ensures var r := WithEvictable(s, f, b);
      r.history == s.history && r.clock == s.clock &&
      (f in r.evictable <==> b) &&
      (forall g :: g != f ==> (g in r.evictable <==> g in s.evictable))
    ensures var r := Removed(s, f);
      f !in r.history && f !in r.evictable && r.clock == s.clock &&
      (forall g :: g != f ==> HistoryOf(r, g) == HistoryOf(s, g) && (g in r.evictable <==> g in s.evictable))
  {
  }

  /**
   * Worked example with k = 2: frame 1 was accessed at ticks 1 and 5,
   * frame 2 only at tick 2. Frame 2's distance is infinite, so it is the victim.
   */
  lemma InfiniteDistanceExample()
    ensures var s := ReplacerState(2, map[1 := [1, 5], 2 := [2]], {1, 2}, 5);
      Scannable(s) && Victim(s) == 2
  {
    var s := ReplacerState(2, map[1 := [1, 5], 2 := [2]], {1, 2}, 5);
    assert Inv(s);
    assert IsVictim(s, 2);
    VictimUnique(s, Victim(s), 2);
  }

  /**
   * Worked example with k = 2 showing that distance runs from the newest
   * access: frame 1 has ticks 1 and 4, frame 2 ticks 2 and 3, the clock is 5.
   * Measured from the k-th most recent access frame 1 would be farther (4 > 3);
   * measured from the newest, frame 2 is (2 > 1), and it is the victim.
   */
  lemma NewestTimestampExample()
    ensures var s := ReplacerState(2, map[1 := [1, 4], 2 := [2, 3]], {1, 2}, 5);
      Scannable(s) && Victim(s) == 2
  {
    var s := ReplacerState(2, map[1 := [1, 4], 2 := [2, 3]], {1, 2}, 5);
    assert Inv(s);
    assert DistanceOf(s, 1) == Finite(1) && DistanceOf(s, 2) == Finite(2);
    assert IsVictim(s, 2);
    VictimUnique(s, Victim(s), 2);
  }

  /** Both frames below k accesses: the tie on infinite distance goes to the older first access. */
  lemma TieBreakExample()
    ensures var s := ReplacerState(2, map[1 := [3], 2 := [1]], {1, 2}, 3);
      Scannable(s) && Victim(s) == 2
  {
    var s := ReplacerState(2, map[1 := [3], 2 := [1]], {1, 2}, 3);
    assert Inv(s);
    assert IsVictim(s, 2);
    VictimUnique(s, Victim(s), 2);
  }

  class LRUKReplacer {
    const k: int
    var accessHistory: map<int, seq<int>>
    var evictableFrames: set<int>
    var currentTimestamp: int

    function State(): ReplacerState
      reads this
    {
      ReplacerState(k, accessHistory, evictableFrames, currentTimestamp)
    }

    ghost predicate Valid()
      reads this
    {
      Inv(State())
    }

    /** The `capacity` argument is stored by the source but never read. */
    constructor (capacity: int, k: int)
      ensures Valid()
      ensures State() == ReplacerState(k, map[], {}, 0)
    {
      this.k := k;
      accessHistory := map[];
      evictableFrames := {};
      currentTimestamp := 0;
    }

    /**
     * The scan of `evict` over the evictable set, in whatever order the set
     * yields its members: keeps the best candidate so far and its distance
     * and oldest access.
     */
    method ScanForVictim() returns (victim: Option<int>)
      requires Valid() && Scannable(State())
      ensures victim.None? <==> evictableFrames == {}
      ensures victim.Some? ==> IsVictim(State(), victim.value)
    {
      ghost var s := State();
      victim := None;
      var maxDistance := Finite(LONG_MIN);
      var earliestTimestamp := LONG_MAX;
      var toVisit := evictableFrames;
      while toVisit != {}
        invariant toVisit <= evictableFrames
        invariant victim.None? ==> toVisit == evictableFrames && maxDistance == Finite(LONG_MIN)
        invariant victim.Some? ==>
          victim.value in evictableFrames && victim.value !in toVisit &&
          maxDistance == DistanceOf(s, victim.value) && earliestTimestamp == OldestOf(s, victim.value) &&
          forall f :: f in evictableFrames && f !in toVisit ==> !Outranks(s, f, victim.value)
        decreases toVisit
      {
        ghost var next := Choose(toVisit);
        var frame :| frame in toVisit;
        var history := accessHistory[frame];
        var distance := if |history| >= k then Finite(currentTimestamp - history[|history| - 1]) else Infinite;
        var oldestAccess := history[0];
        assert HistoryOk(history, k, currentTimestamp);
        if Precedes(distance, oldestAccess, maxDistance, earliestTimestamp) {
          if victim.Some? {
            forall f | f in evictableFrames && f !in toVisit
              ensures !Outranks(s, f, frame)
            {
              if Outranks(s, f, frame) {
                PrecedesTransitive(DistanceOf(s, f), OldestOf(s, f), distance, oldestAccess,
                                   maxDistance, earliestTimestamp);
              }
            }
          }
          maxDistance, earliestTimestamp, victim := distance, oldestAccess, Some(frame);
        }
        toVisit := toVisit - {frame};
      }
    }

    method Evict() returns (victim: Option<int>)
      requires Valid() && Scannable(State())
      modifies this
      ensures Valid()
      ensures victim.None? <==> old(evictableFrames) == {}
      ensures victim.None? ==> State() == old(State())
      ensures victim.Some? ==> victim.value == Victim(old(State())) && State() == Removed(old(State()), victim.value)
    {
      if evictableFrames == {} {
        return None;
      }
      victim := ScanForVictim();
      VictimUnique(State(), victim.value, Victim(State()));
      RemovedKeepsInv(State(), victim.value);
      if victim.Some? {
        accessHistory := accessHistory - {victim.value};
        evictableFrames := evictableFrames - {victim.value};
      }
    }

    method RecordAccess(frameId: int)
      requires Valid()
      modifies this
      ensures Valid()
      ensures State() == Accessed(old(State()), frameId)
    {
      ghost var s := State();
      AccessedKeepsInv(s, frameId);
      currentTimestamp := currentTimestamp + 1;
      if frameId !in accessHistory {
        accessHistory := accessHistory[frameId := []];
      }
      var history := accessHistory[frameId] + [currentTimestamp];
      assert history == HistoryOf(s, frameId) + [currentTimestamp];
      if |history| > k {
        history := history[1..];
      }
      accessHistory := accessHistory[frameId := history];
      assert State() == Accessed(s, frameId);
    }

    method Remove(frameId: int)
      requires Valid()
      modifies this
      ensures Valid()
      ensures State() == Removed(old(State()), frameId)
    {
      RemovedKeepsInv(State(), frameId);
      accessHistory := accessHistory - {frameId};
      evictableFrames := evictableFrames - {frameId};
    }

    method SetEvictable(frameId: int, setEvictable: bool)
      requires Valid()
      modifies this
      ensures Valid()
      ensures State() == WithEvictable(old(State()), frameId, setEvictable)
    {
      if setEvictable {
        evictableFrames := evictableFrames + {frameId};
      } else {
        evictableFrames := evictableFrames - {frameId};
      }
    }

    method Size() returns (n: int)
      ensures n == |State().evictable|
    {
      n := |evictableFrames|;
    }
  }
}
