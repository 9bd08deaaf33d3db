/**
 * The one-shot scroll activator `animateOnScroll`.
 *
 * At start-up every element carrying a `data-animate` attribute is observed.
 * The host's IntersectionObserver then calls back with batches of entries;
 * for each entry whose target intersects the viewport the callback adds the
 * target's `data-animate` value to its class list and stops observing it.
 *
 * Elements are identified by NodeId. The viewport geometry (the 10%
 * threshold) is the host's business: an entry carries `isIntersecting` as a
 * given flag. `classList.add` rejects an empty token and a token holding
 * ASCII whitespace by throwing; the exception leaves the callback, so the
 * rest of that batch is not processed. Dispatch models that with `threw`.
 */
module ScrollAnimation {

  type NodeId = nat

  /** An IntersectionObserverEntry as the callback reads it. */
  datatype Entry = Entry(target: NodeId, isIntersecting: bool)

  /** What the callback can change: the observer's target set and the class
      list of every element of the document. */
  datatype View = View(observed: set<NodeId>, classList: map<NodeId, set<string>>)

  /** A batch's effect: the new view, and whether `classList.add` threw. */
  datatype Outcome = Outcome(view: View, threw: bool)

  /** The ASCII whitespace of the DOM standard. */
  predicate IsAsciiWhitespace(c: char) {
    c == '\t' || c == '\n' || c == '\U{000C}' || c == '\r' || c == ' '
  }

  /** A token `DOMTokenList.add` accepts without throwing. */
  predicate IsValidToken(t: string) {
    |t| > 0 && forall k :: 0 <= k < |t| ==> !IsAsciiWhitespace(t[k])
  }

  /** Every marked element is an element of the document, and only marked
      elements are observed. */
  predicate WellFormed(v: View, marker: map<NodeId, string>) {
    v.observed <= marker.Keys <= v.classList.Keys
  }

  /** Each entry's target was observed at some point, hence carries a marker. */
  predicate AllMarked(entries: seq<Entry>, marker: map<NodeId, string>) {
    forall k :: 0 <= k < |entries| ==> entries[k].target in marker
  }

  /** Entry `k` is one on which `classList.add` is called with an invalid token. */
  predicate Faulty(entries: seq<Entry>, marker: map<NodeId, string>, k: int)
    requires AllMarked(entries, marker)
  {
    0 <= k < |entries| && entries[k].isIntersecting && !IsValidToken(marker[entries[k].target])
  }

  /** The elements that a batch activates when no entry is faulty. */
  function Activated(entries: seq<Entry>): set<NodeId> {
    set k | 0 <= k < |entries| && entries[k].isIntersecting :: entries[k].target
  }

  /** The class an element can ever receive: its own marker, if it has one. */
  function OwnMarker(marker: map<NodeId, string>, x: NodeId): set<string> {
    if x in marker then {marker[x]} else {}
  }

  /** One turn of `entries.forEach` in the observer callback. Only the
      entry's own target can change: an entry out of view changes nothing,
      `classList.add` throws exactly on an invalid token and then changes
      nothing, and otherwise the target carries its marker and is no longer
      observed. */
  function Handle(v: View, marker: map<NodeId, string>, e: Entry): (r: Outcome)
    requires WellFormed(v, marker) && e.target in marker
    ensures WellFormed(r.view, marker)
    ensures r.threw <==> e.isIntersecting && !IsValidToken(marker[e.target])
    ensures r.view.classList.Keys == v.classList.Keys
    ensures forall x :: x in v.classList && x != e.target ==> r.view.classList[x] == v.classList[x]
    ensures r.view.observed - {e.target} == v.observed - {e.target}
    ensures !e.isIntersecting || r.threw ==> r.view == v
    ensures e.isIntersecting && !r.threw ==>
      e.target !in r.view.observed && r.view.classList[e.target] == v.classList[e.target] + {marker[e.target]}
  {
    if !e.isIntersecting then Outcome(v, false)
    else if !IsValidToken(marker[e.target]) then Outcome(v, true)
    else
      var t := e.target;
      Outcome(View(v.observed - {t}, v.classList[t := v.classList[t] + {marker[t]}]), false)
  }

  /** The observer callback on one batch of entries, in order; it stops at
      the first entry on which `classList.add` throws. The contract is the
      monotonicity of activation: nothing is ever observed anew, class lists
      only grow and only by the element's own marker, an element leaves the
      observed set only with its marker added, and no element joins or
      leaves the document. */
  function Dispatch(v: View, marker: map<NodeId, string>, entries: seq<Entry>): (r: Outcome)
    requires WellFormed(v, marker) && AllMarked(entries, marker)
    ensures WellFormed(r.view, marker)
    ensures r.view.observed <= v.observed
    ensures r.view.classList.Keys == v.classList.Keys
    ensures forall x :: x in v.classList ==> v.classList[x] <= r.view.classList[x]
    ensures forall x :: x in v.classList ==> r.view.classList[x] <= v.classList[x] + OwnMarker(marker, x)
    ensures forall x :: x in v.observed && x !in r.view.observed ==> marker[x] in r.view.classList[x]
    decreases |entries|
  {
    if entries == [] then Outcome(v, false)
    else
      var o := Handle(v, marker, entries[0]);
      if o.threw then o else Dispatch(o.view, marker, entries[1..])
  }

  // ---------------------------------------------------------------------
  // What one batch does
  // ---------------------------------------------------------------------

  /** The callback throws iff some intersecting entry names an invalid token. */
  lemma {:induction false} DispatchThrowsIff(v: View, marker: map<NodeId, string>, entries: seq<Entry>)
    requires WellFormed(v, marker) && AllMarked(entries, marker)
    ensures Dispatch(v, marker, entries).threw <==> exists k :: Faulty(entries, marker, k)
    decreases |entries|
  {
    if entries != [] {
      var o := Handle(v, marker, entries[0]);
      if !o.threw {
        var rest := entries[1..];
        DispatchThrowsIff(o.view, marker, rest);
        if exists k :: Faulty(rest, marker, k) {
          var k :| Faulty(rest, marker, k);
          assert Faulty(entries, marker, k + 1);
        }
        if exists k :: Faulty(entries, marker, k) {
          var k :| Faulty(entries, marker, k);
          assert k != 0;
          assert Faulty(rest, marker, k - 1);
        }
      } else {
        assert Faulty(entries, marker, 0);
      }
    }
  }

  /** An element that no intersecting entry of the batch names keeps its
      class list and its observed status. */
  lemma {:induction false} DispatchUntouched(v: View, marker: map<NodeId, string>, entries: seq<Entry>, x: NodeId)
    requires WellFormed(v, marker) && AllMarked(entries, marker)
    requires forall k :: 0 <= k < |entries| && entries[k].isIntersecting ==> entries[k].target != x
    ensures x in Dispatch(v, marker, entries).view.observed <==> x in v.observed
    ensures x in v.classList ==> Dispatch(v, marker, entries).view.classList[x] == v.classList[x]
    decreases |entries|
  {
    if entries != [] {
      var o := Handle(v, marker, entries[0]);
      if !o.threw {
        DispatchUntouched(o.view, marker, entries[1..], x);
      }
    }
  }

  /** A batch with no faulty entry does not throw, unobserves exactly the
      targets of its intersecting entries and adds to each of them exactly
      its own marker; in whatever order the entries come. */
  lemma {:induction false} DispatchClean(v: View, marker: map<NodeId, string>, entries: seq<Entry>)
    requires WellFormed(v, marker) && AllMarked(entries, marker)
    requires forall k :: !Faulty(entries, marker, k)
    ensures var r := Dispatch(v, marker, entries);
      && !r.threw
      && r.view.observed == v.observed - Activated(entries)
      && forall x :: x in v.classList ==>
           r.view.classList[x] == if x in Activated(entries) then v.classList[x] + {marker[x]} else v.classList[x]
    decreases |entries|
  {
    if entries != [] {
      var e, rest := entries[0], entries[1..];
      var o := Handle(v, marker, e);
      assert !Faulty(entries, marker, 0);
      FaultyInTail(marker, entries);
      DispatchClean(o.view, marker, rest);
      ActivatedCons(entries);
    }
  }

  /** The entries a batch activates: those of its first entry and of the rest. */
  lemma ActivatedCons(entries: seq<Entry>)
    requires entries != []
    ensures Activated(entries) ==
      (if entries[0].isIntersecting then {entries[0].target} else {}) + Activated(entries[1..])
  {
    var e, rest := entries[0], entries[1..];
    forall y | y in Activated(entries)
      ensures y in (if e.isIntersecting then {e.target} else {}) + Activated(rest)
    {
      var k :| 0 <= k < |entries| && entries[k].isIntersecting && entries[k].target == y;
      if k > 0 { assert rest[k - 1] == entries[k]; }
    }
    forall y | y in Activated(rest) ensures y in Activated(entries) {
      var k :| 0 <= k < |rest| && rest[k].isIntersecting && rest[k].target == y;
      assert entries[k + 1] == rest[k];
    }
  }

  /** The targets of intersecting entries all carry a marker. */
  lemma ActivatedMarked(marker: map<NodeId, string>, entries: seq<Entry>)
    requires AllMarked(entries, marker)
    ensures Activated(entries) <= marker.Keys
  {
    forall y | y in Activated(entries) ensures y in marker {
      var k :| 0 <= k < |entries| && entries[k].isIntersecting && entries[k].target == y;
    }
  }

  /** The document after a batch with no faulty entry, in closed form: the
      intersecting targets are unobserved and carry their markers. */
  function Settled(v: View, marker: map<NodeId, string>, entries: seq<Entry>): View {
    var a := Activated(entries);
    View(v.observed - a,
         map x | x in v.classList :: if x in a then v.classList[x] + OwnMarker(marker, x) else v.classList[x])
  }

  /** A batch with no faulty entry has the effect Settled describes. */
  lemma DispatchSettles(v: View, marker: map<NodeId, string>, entries: seq<Entry>)
    requires WellFormed(v, marker) && AllMarked(entries, marker)
    requires forall k :: !Faulty(entries, marker, k)
    ensures Dispatch(v, marker, entries) == Outcome(Settled(v, marker, entries), false)
  {
    DispatchClean(v, marker, entries);
    ActivatedMarked(marker, entries);
    var r, s := Dispatch(v, marker, entries).view, Settled(v, marker, entries);
    forall x | x in v.classList ensures r.classList[x] == s.classList[x] {
      if x in Activated(entries) {
        assert OwnMarker(marker, x) == {marker[x]};
      }
    }
  }

  /** Settling the same entries twice is settling them once. */
  lemma SettledIdempotent(v: View, marker: map<NodeId, string>, entries: seq<Entry>)
    ensures Settled(Settled(v, marker, entries), marker, entries) == Settled(v, marker, entries)
  {
    var s := Settled(v, marker, entries);
    var s2 := Settled(s, marker, entries);
    forall x | x in s.classList ensures s2.classList[x] == s.classList[x] {
    }
  }

  /** Running the same batch again changes nothing: re-adding a class that is
      already there leaves the class list as it is, and unobserving twice is
      unobserving once. */
  lemma DispatchIdempotent(v: View, marker: map<NodeId, string>, entries: seq<Entry>)
    requires WellFormed(v, marker) && AllMarked(entries, marker)
    ensures var r := Dispatch(v, marker, entries);
      Dispatch(r.view, marker, entries) == r
  {
    var p := CleanPrefix(marker, entries);
    DispatchStopsAtFault(v, marker, entries);
    var r := Dispatch(v, marker, entries);
    DispatchStopsAtFault(r.view, marker, entries);
    var prefix := entries[..p];
    FaultyInPrefix(marker, entries, p);
    DispatchSettles(v, marker, prefix);
    var w := Dispatch(v, marker, prefix).view;
    DispatchSettles(w, marker, prefix);
    SettledIdempotent(v, marker, prefix);
  }

  /** Entry `k` of a batch, past the first, is faulty iff entry `k - 1` of its tail is. */
  lemma FaultyInTail(marker: map<NodeId, string>, entries: seq<Entry>)
    requires AllMarked(entries, marker) && entries != []
    ensures AllMarked(entries[1..], marker)
    ensures forall k | 1 <= k :: Faulty(entries, marker, k) <==> Faulty(entries[1..], marker, k - 1)
    ensures forall j :: Faulty(entries[1..], marker, j) ==> Faulty(entries, marker, j + 1)
  {
    forall k | 1 <= k ensures Faulty(entries, marker, k) <==> Faulty(entries[1..], marker, k - 1) {
      if k < |entries| {
        assert entries[1..][k - 1] == entries[k];
      }
    }
  }

  /** Entry `k` of a prefix is faulty iff entry `k` of the batch is. */
  lemma FaultyInPrefix(marker: map<NodeId, string>, entries: seq<Entry>, p: nat)
    requires AllMarked(entries, marker) && p <= |entries|
    ensures AllMarked(entries[..p], marker)
    ensures forall k :: Faulty(entries[..p], marker, k) <==> 0 <= k < p && Faulty(entries, marker, k)
  {
    forall k ensures Faulty(entries[..p], marker, k) <==> 0 <= k < p && Faulty(entries, marker, k) {
      if 0 <= k < p {
        assert entries[..p][k] == entries[k];
      }
    }
  }

  /** The length of the longest prefix of `entries` with no faulty entry. */
  function CleanPrefix(marker: map<NodeId, string>, entries: seq<Entry>): (p: nat)
    requires AllMarked(entries, marker)
    ensures p <= |entries|
    ensures forall k :: 0 <= k < p ==> !Faulty(entries, marker, k)
    ensures p < |entries| ==> Faulty(entries, marker, p)
    decreases |entries|
  {
    if entries == [] then 0
    else if Faulty(entries, marker, 0) then 0
    else
      var q := CleanPrefix(marker, entries[1..]);
      FaultyInTail(marker, entries);
      q + 1
  }

  /** A batch has the effect of its clean prefix, and throws iff that prefix
      is not the whole batch. */
  lemma {:induction false} DispatchStopsAtFault(v: View, marker: map<NodeId, string>, entries: seq<Entry>)
    requires WellFormed(v, marker) && AllMarked(entries, marker)
    ensures var p := CleanPrefix(marker, entries);
      AllMarked(entries[..p], marker) &&
      Dispatch(v, marker, entries) == Outcome(Dispatch(v, marker, entries[..p]).view, p < |entries|)
    decreases |entries|
  {
    if entries != [] {
      var p := CleanPrefix(marker, entries);
      var o := Handle(v, marker, entries[0]);
      if !o.threw {
        var rest := entries[1..];
        DispatchStopsAtFault(o.view, marker, rest);
        assert p == CleanPrefix(marker, rest) + 1;
        assert entries[..p][1..] == rest[..p - 1];
      }
    }
  }

  lemma PermutedMembers(b1: seq<Entry>, b2: seq<Entry>, k: int)
    requires multiset(b1) == multiset(b2) && 0 <= k < |b2|
    ensures exists j :: 0 <= j < |b1| && b1[j] == b2[k]
  {
    assert b2[k] in multiset(b1);
  }

  lemma PermutedActivated(b1: seq<Entry>, b2: seq<Entry>)
    requires multiset(b1) == multiset(b2)
    ensures Activated(b1) == Activated(b2)
  {
    forall y | y in Activated(b1) ensures y in Activated(b2) {
      var k :| 0 <= k < |b1| && b1[k].isIntersecting && b1[k].target == y;
      PermutedMembers(b2, b1, k);
    }
    forall y | y in Activated(b2) ensures y in Activated(b1) {
      var k :| 0 <= k < |b2| && b2[k].isIntersecting && b2[k].target == y;
      PermutedMembers(b1, b2, k);
    }
  }

  lemma PermutedClean(marker: map<NodeId, string>, b1: seq<Entry>, b2: seq<Entry>)
    requires AllMarked(b1, marker) && multiset(b1) == multiset(b2)
    requires forall k :: !Faulty(b1, marker, k)
    ensures AllMarked(b2, marker)
    ensures forall k :: !Faulty(b2, marker, k)
  {
    forall k | 0 <= k < |b2| ensures b2[k].target in marker {
      PermutedMembers(b1, b2, k);
    }
    forall k ensures !Faulty(b2, marker, k) {
      if 0 <= k < |b2| {
        PermutedMembers(b1, b2, k);
        var j :| 0 <= j < |b1| && b1[j] == b2[k];
        assert !Faulty(b1, marker, j);
      }
    }
  }

  /** Two orderings of the same entries, none of them faulty, have the same
      effect: activation does not depend on the order the host reports. */
  lemma DispatchOrderIrrelevant(v: View, marker: map<NodeId, string>, b1: seq<Entry>, b2: seq<Entry>)
    requires WellFormed(v, marker) && AllMarked(b1, marker)
    requires multiset(b1) == multiset(b2)
    requires forall k :: !Faulty(b1, marker, k)
    ensures AllMarked(b2, marker)
    ensures Dispatch(v, marker, b1) == Dispatch(v, marker, b2)
  {
    PermutedClean(marker, b1, b2);
    PermutedActivated(b1, b2);
    DispatchSettles(v, marker, b1);
    DispatchSettles(v, marker, b2);
  }

  /** The page of `FaultyOrderMatters`: element 1 carries a value holding a
      space, element 2 a valid one. */
  const SampleMarker: map<NodeId, string> := map[1 := "fade in", 2 := "slide-up"]
  const SampleView: View := View({1, 2}, map[1 := {}, 2 := {}])

  /** The faulty entry first: the batch stops before anything changes. */
  lemma FaultyFirst()
    ensures WellFormed(SampleView, SampleMarker)
    ensures Dispatch(SampleView, SampleMarker, [Entry(1, true), Entry(2, true)]) == Outcome(SampleView, true)
  {
    assert IsAsciiWhitespace(SampleMarker[1][4]);
    var b := [Entry(1, true), Entry(2, true)];
    assert Handle(SampleView, SampleMarker, b[0]) == Outcome(SampleView, true);
  }

  /** The valid entry first: element 2 is activated, then the batch stops. */
  lemma FaultyLast()
    ensures WellFormed(SampleView, SampleMarker)
    ensures Dispatch(SampleView, SampleMarker, [Entry(2, true), Entry(1, true)])
         == Outcome(View({1}, map[1 := {}, 2 := {"slide-up"}]), true)
  {
    var w := View({1}, map[1 := {}, 2 := {"slide-up"}]);
    var b := [Entry(2, true), Entry(1, true)];
    assert IsValidToken(SampleMarker[2]);
    assert IsAsciiWhitespace(SampleMarker[1][4]);
    assert Handle(SampleView, SampleMarker, b[0]).view == w by {
      assert {1, 2} - {2} == {1};
      var cl := SampleView.classList[2 := {} + {"slide-up"}];
      assert cl.Keys == {1, 2} && cl[1] == {} && cl[2] == {"slide-up"};
      assert cl == w.classList;
    }
    assert Handle(w, SampleMarker, b[1]) == Outcome(w, true);
    assert Dispatch(w, SampleMarker, b[1..]) == Outcome(w, true);
  }

  /** Without the no-fault condition order matters: the faulty entry stops
      the batch before or after the valid one has been handled. */
  lemma FaultyOrderMatters()
    ensures WellFormed(SampleView, SampleMarker)
    ensures var b1 := [Entry(1, true), Entry(2, true)];
      var b2 := [Entry(2, true), Entry(1, true)];
      && multiset(b1) == multiset(b2)
      && Dispatch(SampleView, SampleMarker, b1).view == SampleView
      && Dispatch(SampleView, SampleMarker, b2).view == View({1}, map[1 := {}, 2 := {"slide-up"}])
  {
    FaultyFirst();
    FaultyLast();
  }

  // ---------------------------------------------------------------------
  // A run of callbacks, as the host delivers them
  // ---------------------------------------------------------------------

  /** The host reports, in one batch, only targets that are observed when the
      batch starts (entries queued before an `unobserve` in the same batch
      are still delivered). */
  predicate Deliverable(v: View, batch: seq<Entry>) {
    forall k :: 0 <= k < |batch| ==> batch[k].target in v.observed
  }

  /** Every batch of the run is one the host can deliver at its turn. */
  predicate HostRun(v: View, marker: map<NodeId, string>, batches: seq<seq<Entry>>)
    requires WellFormed(v, marker)
    decreases |batches|
  {
    batches == [] ||
    (Deliverable(v, batches[0]) && HostRun(Dispatch(v, marker, batches[0]).view, marker, batches[1..]))
  }

  /** The document after a run of callbacks. A callback that throws does not
      disconnect the observer: later batches are still handled. */
  function Run(v: View, marker: map<NodeId, string>, batches: seq<seq<Entry>>): (r: View)
    requires WellFormed(v, marker) && HostRun(v, marker, batches)
    ensures WellFormed(r, marker)
    ensures r.observed <= v.observed
    ensures r.classList.Keys == v.classList.Keys
    ensures forall x :: x in v.classList ==> v.classList[x] <= r.classList[x] <= v.classList[x] + OwnMarker(marker, x)
    decreases |batches|
  {
    if batches == [] then v
    else Run(Dispatch(v, marker, batches[0]).view, marker, batches[1..])
  }

  /** Once an element is no longer observed, however the page is scrolled
      afterwards its class list never changes and it is never observed again. */
  lemma {:induction false} RunKeepsActivated(v: View, marker: map<NodeId, string>, batches: seq<seq<Entry>>, x: NodeId)
    requires WellFormed(v, marker) && HostRun(v, marker, batches)
    requires x in v.classList && x !in v.observed
    ensures x !in Run(v, marker, batches).observed
    ensures Run(v, marker, batches).classList[x] == v.classList[x]
    decreases |batches|
  {
    if batches != [] {
      var b := batches[0];
      DispatchUntouched(v, marker, b, x);
      RunKeepsActivated(Dispatch(v, marker, b).view, marker, batches[1..], x);
    }
  }

  /** A page with no `data-animate` element observes nothing, and no run of
      callbacks changes any class. */
  lemma {:induction false} NoMarkersNoEffect(v: View, marker: map<NodeId, string>, batches: seq<seq<Entry>>)
    requires marker == map[] && WellFormed(v, marker) && HostRun(v, marker, batches)
    ensures v.observed == {}
    ensures Run(v, marker, batches) == v
    decreases |batches|
  {
    if batches != [] {
      var b := batches[0];
      assert b == [];
      NoMarkersNoEffect(Dispatch(v, marker, b).view, marker, batches[1..]);
    }
  }

  // ---------------------------------------------------------------------
  // The activator as the page holds it
  // ---------------------------------------------------------------------

  /** `document.querySelectorAll('[data-animate]')`: the elements of the
      document that carry the attribute. */
  function QueryMarked(nodes: seq<NodeId>, marker: map<NodeId, string>): (r: seq<NodeId>)
    ensures forall x :: x in r <==> x in nodes && x in marker
    ensures |r| <= |nodes|
  {
    if nodes == [] then []
    else if nodes[0] in marker then [nodes[0]] + QueryMarked(nodes[1..], marker)
    else QueryMarked(nodes[1..], marker)
  }

  /** One page's activator: the `data-animate` attributes of its elements,
      the observer's target set and every element's class list. */
  class ScrollAnimator {
    const marker: map<NodeId, string>
    var observed: set<NodeId>
    var classList: map<NodeId, set<string>>

    ghost predicate Valid()
      reads this
    {
      WellFormed(Snapshot(), marker)
    }

    function Snapshot(): View
      reads this
    {
      View(observed, classList)
    }

    /** `animateOnScroll()`: create the observer and observe every element
        the `[data-animate]` query returns. `nodes` lists the document's
        elements in document order. */
    constructor (nodes: seq<NodeId>, dataAnimate: map<NodeId, string>, classes: map<NodeId, set<string>>)
      requires forall x :: x in dataAnimate ==> x in nodes
      requires dataAnimate.Keys <= classes.Keys
      ensures Valid()
      ensures marker == dataAnimate && classList == classes
      ensures observed == dataAnimate.Keys
    {
      marker := dataAnimate;
      classList := classes;
      observed := {};
      new;
      var elements := QueryMarked(nodes, dataAnimate);
      var i := 0;
      while i < |elements|
        invariant 0 <= i <= |elements|
        invariant observed == set k | 0 <= k < i :: elements[k]
        invariant observed <= dataAnimate.Keys
        invariant marker == dataAnimate && classList == classes
      {
        observed := observed + {elements[i]};
        i := i + 1;
      }
      forall x | x in dataAnimate ensures x in observed {
        var k :| 0 <= k < |elements| && elements[k] == x;
      }
    }

    /** The observer callback on one batch. `threw` reports that
        `classList.add` threw and the rest of the batch was skipped. */
    method OnIntersection(entries: seq<Entry>) returns (threw: bool)
      requires Valid() && AllMarked(entries, marker)
      modifies this
      ensures Valid()
      ensures Outcome(Snapshot(), threw) == Dispatch(old(Snapshot()), marker, entries)
    {
      threw := false;
      var i := 0;
      while i < |entries|
        invariant 0 <= i <= |entries|
        invariant Valid()
        invariant Dispatch(old(Snapshot()), marker, entries) == Dispatch(Snapshot(), marker, entries[i..])
      {
        var entry := entries[i];
        assert entries[i..][0] == entry && entries[i..][1..] == entries[i + 1..];
        if entry.isIntersecting {
          var animationType := marker[entry.target];
          if !IsValidToken(animationType) {
            threw := true;
            return;
          }
          classList := classList[entry.target := classList[entry.target] + {animationType}];
          observed := observed - {entry.target};
        }
        i := i + 1;
      }
      assert entries[i..] == [];
    }
  }
}
