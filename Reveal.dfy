/**
 * The one-shot reveal registry behind the IntersectionObserver callback: an intersecting
 * watched element gets the `active` class (a service card only when its stagger timer
 * fires) and stops being watched.
 */
module Reveal {
  import opened Dom

  /** Milliseconds between the reveals of consecutive service cards. */
  const StaggerStep: nat := 150

  /** One observer entry; whether it intersects is decided by the browser and taken as given. */
  datatype Entry = Entry(target: Element, isIntersecting: bool)

  /** A pending `setTimeout` that will add `active` to `target` after `delay` milliseconds. */
  datatype Timer = Timer(target: Element, delay: nat)

  /** The watched elements, the elements carrying `active`, and the pending stagger timers. */
  datatype Registry = Registry(observed: set<Element>, revealed: set<Element>, timers: seq<Timer>)

  /** `Array.prototype.indexOf`: the first position of `e` in `cards`, or -1. */
  function IndexOf(cards: seq<Element>, e: Element): (i: int)
    ensures -1 <= i < |cards|
    ensures i == -1 <==> e !in cards
    ensures 0 <= i ==> cards[i] == e && forall j :: 0 <= j < i ==> cards[j] != e
  {
    if |cards| == 0 then -1
    else if cards[0] == e then 0
    else
      var k := IndexOf(cards[1..], e);
      if k == -1 then -1 else k + 1
  }

  /** The reveal delay of the service card at `cardIndex` in the full list of cards. */
  function StaggerDelay(cardIndex: nat): nat
  {
    cardIndex * StaggerStep
  }

  /** The callback's work for one entry. */
  function OnEntry(r: Registry, cards: seq<Element>, e: Entry): Registry
  {
    if !e.isIntersecting then r
    else if e.target in cards then
      r.(observed := r.observed - {e.target},
         timers := r.timers + [Timer(e.target, StaggerDelay(IndexOf(cards, e.target)))])
    else
      r.(observed := r.observed - {e.target}, revealed := r.revealed + {e.target})
  }

  /** The callback's work for a batch of entries, in order. */
  function OnEntries(r: Registry, cards: seq<Element>, entries: seq<Entry>): Registry
  {
    if |entries| == 0 then r
    else OnEntry(OnEntries(r, cards, entries[..|entries| - 1]), cards, entries[|entries| - 1])
  }

  /** Stagger timer `k` fires: its card gets `active` and the timer is gone. */
  function TimerFired(r: Registry, k: nat): Registry
    requires k < |r.timers|
  {
    r.(revealed := r.revealed + {r.timers[k].target}, timers := r.timers[..k] + r.timers[k + 1..])
  }

  /** Targets of the intersecting entries. */
  function Intersecting(entries: seq<Entry>): set<Element>
  {
    set e | e in entries && e.isIntersecting :: e.target
  }

  /** Targets of intersecting entries that are not service cards: revealed at once. */
  function Immediate(cards: seq<Element>, entries: seq<Entry>): set<Element>
  {
    set e | e in entries && e.isIntersecting && e.target !in cards :: e.target
  }

  /** Targets of intersecting entries that are service cards: revealed by a timer. */
  function Staggered(cards: seq<Element>, entries: seq<Entry>): set<Element>
  {
    set e | e in entries && e.isIntersecting && e.target in cards :: e.target
  }

  function TimerTargets(ts: seq<Timer>): set<Element>
  {
    set t | t in ts :: t.target
  }

  /** The number of intersecting entries whose target is a service card. */
  function StaggeredCount(cards: seq<Element>, entries: seq<Entry>): nat
  {
    if |entries| == 0 then 0
    else
      var x := entries[|entries| - 1];
      StaggeredCount(cards, entries[..|entries| - 1]) + (if x.isIntersecting && x.target in cards then 1 else 0)
  }

  /** The targets of the timers, in order. */
  function Targets(ts: seq<Timer>): seq<Element>
  {
    if |ts| == 0 then [] else Targets(ts[..|ts| - 1]) + [ts[|ts| - 1].target]
  }

  /** The targets of the intersecting entries whose target is a service card, in batch order. */
  function StaggeredSeq(cards: seq<Element>, entries: seq<Entry>): seq<Element>
  {
    if |entries| == 0 then []
    else
      var x := entries[|entries| - 1];
      StaggeredSeq(cards, entries[..|entries| - 1]) + (if x.isIntersecting && x.target in cards then [x.target] else [])
  }

  /** Appending a timer appends its target. */
  lemma TargetsAppend(ts: seq<Timer>, t: Timer)
    ensures Targets(ts + [t]) == Targets(ts) + [t.target]
  {
    assert (ts + [t])[..|ts|] == ts;
  }

  /** A timer belongs to a service card and waits `150 * index` for that card's index in the full list. */
  predicate StaggeredCorrectly(t: Timer, cards: seq<Element>)
  {
    t.target in cards && t.delay == StaggerDelay(IndexOf(cards, t.target))
  }

  /** How the target sets of a batch grow by one more entry. */
  lemma SplitLast(cards: seq<Element>, entries: seq<Entry>, x: Entry)
    ensures Intersecting(entries + [x]) == Intersecting(entries) + (if x.isIntersecting then {x.target} else {})
    ensures Immediate(cards, entries + [x]) ==
              Immediate(cards, entries) + (if x.isIntersecting && x.target !in cards then {x.target} else {})
    ensures Staggered(cards, entries + [x]) ==
              Staggered(cards, entries) + (if x.isIntersecting && x.target in cards then {x.target} else {})
  {
    var all := entries + [x];
    assert forall e :: e in all <==> e in entries || e == x;
  }

  /**
   * The effect of a batch: every intersecting target stops being watched, non-card targets
   * get `active` at once, and the intersecting card entries add timers with their cards'
   * stagger delays, as many as there are such entries, after the timers already pending
   * (`NewTimerTargets` gives their order). Nothing else changes.
   */
  lemma {:induction false} OnEntriesEffect(r: Registry, cards: seq<Element>, entries: seq<Entry>)
    ensures OnEntries(r, cards, entries).observed == r.observed - Intersecting(entries)
    ensures OnEntries(r, cards, entries).revealed == r.revealed + Immediate(cards, entries)
    ensures |r.timers| <= |OnEntries(r, cards, entries).timers|
    ensures OnEntries(r, cards, entries).timers[..|r.timers|] == r.timers
    ensures TimerTargets(OnEntries(r, cards, entries).timers[|r.timers|..]) == Staggered(cards, entries)
    ensures |OnEntries(r, cards, entries).timers| - |r.timers| == StaggeredCount(cards, entries)
    ensures forall i :: |r.timers| <= i < |OnEntries(r, cards, entries).timers| ==>
              StaggeredCorrectly(OnEntries(r, cards, entries).timers[i], cards)
  {
    if |entries| == 0 {
      assert OnEntries(r, cards, entries).timers[|r.timers|..] == [];
    } else {
      var n := |entries| - 1;
      var init := entries[..n];
      var x := entries[n];
      assert entries == init + [x];
      OnEntriesEffect(r, cards, init);
      SplitLast(cards, init, x);
      var before := OnEntries(r, cards, init);
      var after := OnEntry(before, cards, x);
      assert after == OnEntries(r, cards, entries);
      var fresh0 := before.timers[|r.timers|..];
      if x.isIntersecting && x.target in cards {
        var t := Timer(x.target, StaggerDelay(IndexOf(cards, x.target)));
        assert after.timers == before.timers + [t];
        assert after.timers[|r.timers|..] == fresh0 + [t];
        assert TimerTargets(fresh0 + [t]) == TimerTargets(fresh0) + {t.target} by {
          assert forall u :: u in fresh0 + [t] <==> u in fresh0 || u == t;
        }
        assert after.timers[..|r.timers|] == before.timers[..|r.timers|];
      } else {
        assert after.timers == before.timers;
      }
    }
  }

  /** The new timers of a batch are one per intersecting card entry, in batch order. */
  lemma {:induction false} NewTimerTargets(r: Registry, cards: seq<Element>, entries: seq<Entry>)
    ensures |r.timers| <= |OnEntries(r, cards, entries).timers|
    ensures Targets(OnEntries(r, cards, entries).timers[|r.timers|..]) == StaggeredSeq(cards, entries)
  {
    if |entries| == 0 {
      assert OnEntries(r, cards, entries).timers[|r.timers|..] == [];
    } else {
      var n := |entries| - 1;
      var init, x := entries[..n], entries[n];
      NewTimerTargets(r, cards, init);
      var before := OnEntries(r, cards, init);
      var after := OnEntry(before, cards, x);
      var fresh0 := before.timers[|r.timers|..];
      if x.isIntersecting && x.target in cards {
        var t := Timer(x.target, StaggerDelay(IndexOf(cards, x.target)));
        assert after.timers[|r.timers|..] == fresh0 + [t];
        TargetsAppend(fresh0, t);
      } else {
        assert after.timers == before.timers;
      }
    }
  }

  /** A batch without an intersecting entry changes nothing. */
  lemma {:induction false} NonIntersectingChangesNothing(r: Registry, cards: seq<Element>, entries: seq<Entry>)
    requires forall i :: 0 <= i < |entries| ==> !entries[i].isIntersecting
    ensures OnEntries(r, cards, entries) == r
  {
    if |entries| > 0 {
      NonIntersectingChangesNothing(r, cards, entries[..|entries| - 1]);
    }
  }

  /** Neither a batch of entries nor a timer ever takes `active` away. */
  lemma RevealIsMonotone(r: Registry, cards: seq<Element>, entries: seq<Entry>, k: nat)
    ensures r.revealed <= OnEntries(r, cards, entries).revealed
    ensures k < |r.timers| ==> r.revealed + {r.timers[k].target} == TimerFired(r, k).revealed
  {
    OnEntriesEffect(r, cards, entries);
  }

  /**
   * The registry's invariant: an element that has been revealed, or whose reveal is
   * scheduled, is no longer watched.
   */
  predicate OneShot(r: Registry)
  {
    && r.observed !! r.revealed
    && forall i :: 0 <= i < |r.timers| ==> r.timers[i].target !in r.observed
  }

  /** Processing one entry keeps the registry one-shot. */
  lemma OnEntryKeepsOneShot(r: Registry, cards: seq<Element>, e: Entry)
    requires OneShot(r)
    ensures OneShot(OnEntry(r, cards, e))
  {
  }

  /** Processing a batch keeps the registry one-shot. */
  lemma {:induction false} OnEntriesKeepsOneShot(r: Registry, cards: seq<Element>, entries: seq<Entry>)
    requires OneShot(r)
    ensures OneShot(OnEntries(r, cards, entries))
  {
    if |entries| > 0 {
      OnEntriesKeepsOneShot(r, cards, entries[..|entries| - 1]);
      OnEntryKeepsOneShot(OnEntries(r, cards, entries[..|entries| - 1]), cards, entries[|entries| - 1]);
    }
  }

  /** A firing timer keeps the registry one-shot. */
  lemma TimerFiredKeepsOneShot(r: Registry, k: nat)
    requires OneShot(r) && k < |r.timers|
    ensures OneShot(TimerFired(r, k))
  {
    var ts := TimerFired(r, k).timers;
    forall i | 0 <= i < |ts| ensures ts[i].target !in r.observed {
      if i < k {
        assert ts[i] == r.timers[i];
      } else {
        assert ts[i] == r.timers[i + 1];
      }
    }
  }

  /** Cards later in the full list wait longer, by one step per position; the first card waits 0 ms. */
  lemma StaggerDelayIncreasing(cards: seq<Element>, a: Element, b: Element)
    requires a in cards && b in cards && IndexOf(cards, a) < IndexOf(cards, b)
    ensures StaggerDelay(IndexOf(cards, a)) + StaggerStep <= StaggerDelay(IndexOf(cards, b))
    ensures IndexOf(cards, a) == 0 ==> StaggerDelay(IndexOf(cards, a)) == 0
  {
    var i, j := IndexOf(cards, a), IndexOf(cards, b);
    assert j * StaggerStep == (i + 1) * StaggerStep + (j - i - 1) * StaggerStep;
  }
}
