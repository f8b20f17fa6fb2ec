/** Whole runs of the allocator: what holds after any sequence of requests and
    releases of live blocks. */
module BuddyRuns {
  import opened Bits
  import opened BuddyTree
  import opened BuddyMarks

  datatype Event = Granted(kbytes: nat, node: nat) | Refused(kbytes: nat) | GivenBack(node: nat)

  ghost predicate Step(h: nat, s: Marks, ev: Event, t: Marks) {
    match ev
    case Granted(kbytes, node) =>
      node < |s| && Lowest(s, 0, node) && Capacity(h, node) == kbytes && t == Placed(s, 0, node)
    case Refused(kbytes) =>
      NoneOf(h, s, 0, kbytes) && t == s
    case GivenBack(node) =>
      node < |s| && s[node] == USED && t == Released(s, node)
  }

  // states[i] is the marking before event i; the pool starts as one free block.
  ghost predicate Run(h: nat, states: seq<Marks>, evs: seq<Event>) {
    && h >= 1
    && |states| == |evs| + 1
    && |states[0]| == Nodes(h) && (forall i :: 0 <= i < |states[0]| ==> states[0][i] == FREE)
    && forall i :: 0 <= i < |evs| ==> Step(h, states[i], evs[i], states[i + 1])
  }

  // Every release in the run climbs through left children only.
  ghost predicate LeftReleases(states: seq<Marks>, evs: seq<Event>)
    requires |states| == |evs| + 1
  {
    forall i :: 0 <= i < |evs| && evs[i].GivenBack? && evs[i].node < |states[i]|
      ==> LeftClimb(states[i], evs[i].node)
  }

  lemma {:induction false} RunWellMarked(h: nat, states: seq<Marks>, evs: seq<Event>, i: nat)
    requires Run(h, states, evs) && i < |states|
    ensures WellMarked(h, states[i])
  {
    if i > 0 {
      RunWellMarked(h, states, evs, i - 1);
      var s := states[i - 1];
      assert Step(h, s, evs[i - 1], states[i]);
      match evs[i - 1]
      case Granted(_, node) => PlacedWellMarked(h, s, node);
      case Refused(_) =>
      case GivenBack(node) => ReleasedKeeps(h, s, node);
    }
  }

  ghost predicate DisjointInPool(h: nat, s: Marks)
    requires h >= 1
  {
    forall m: nat, n: nat :: m < |s| && n < |s| && s[m] == USED && s[n] == USED ==>
      (m == n || Apart(h, m, n)) && Address(h, n) + Capacity(h, n) <= Pow2(h - 1)
  }

  // Over every run, handed-out blocks stay disjoint and inside the pool, and
  // handed-out and free memory add up to the pool.
  lemma RunSafe(h: nat, states: seq<Marks>, evs: seq<Event>, i: nat)
    requires Run(h, states, evs) && h >= 1 && i < |states|
    ensures DisjointInPool(h, states[i])
    ensures UsedKb(h, states[i], |states[i]|) + FreeKb(h, states[i], |states[i]|) == Pow2(h - 1)
  {
    RunWellMarked(h, states, evs, i);
    var s := states[i];
    forall m: nat, n: nat | m < |s| && n < |s| && s[m] == USED && s[n] == USED
      ensures m == n || Apart(h, m, n)
      ensures Address(h, n) + Capacity(h, n) <= Pow2(h - 1)
    {
      if m != n {
        LiveBlocksApart(h, s, m, n);
      }
      InPool(h, n);
    }
    MemoryConserved(h, s);
  }

  lemma {:induction false} LeftReleasesCoalesce(h: nat, states: seq<Marks>, evs: seq<Event>, i: nat)
    requires Run(h, states, evs) && LeftReleases(states, evs) && i < |states|
    ensures Coalesced(states[i])
  {
    RunWellMarked(h, states, evs, i);
    if i > 0 {
      LeftReleasesCoalesce(h, states, evs, i - 1);
      RunWellMarked(h, states, evs, i - 1);
      var s := states[i - 1];
      assert Step(h, s, evs[i - 1], states[i]);
      match evs[i - 1]
      case Granted(_, node) => PlacedWellMarked(h, s, node);
      case Refused(_) =>
      case GivenBack(node) => ReleaseCoalescesIff(h, s, node);
    }
  }

  // A run keeps the tree fully merged exactly when each release does.
  lemma RunCoalescedIff(h: nat, states: seq<Marks>, evs: seq<Event>)
    requires Run(h, states, evs)
    ensures (forall i :: 0 <= i < |states| ==> Coalesced(states[i])) <==> LeftReleases(states, evs)
  {
    if LeftReleases(states, evs) {
      forall i | 0 <= i < |states| ensures Coalesced(states[i]) {
        LeftReleasesCoalesce(h, states, evs, i);
      }
    } else if forall i :: 0 <= i < |states| ==> Coalesced(states[i]) {
      var i :| 0 <= i < |evs| && evs[i].GivenBack? && evs[i].node < |states[i]|
        && !LeftClimb(states[i], evs[i].node);
      assert Step(h, states[i], evs[i], states[i + 1]);
      RunWellMarked(h, states, evs, i);
      ReleaseCoalescesIff(h, states[i], evs[i].node);
      assert Coalesced(states[i + 1]);
    }
  }

  // In such a run a request is refused only when no aligned run of its size is
  // free, and a tree without live blocks is one free block again.
  lemma MergedRunRefusals(h: nat, states: seq<Marks>, evs: seq<Event>, i: nat, n: nat)
    requires Run(h, states, evs) && LeftReleases(states, evs) && i < |evs|
    requires evs[i].Refused? && n < Nodes(h) && Capacity(h, n) == evs[i].kbytes
    ensures !RunFree(h, states[i], n)
  {
    assert Step(h, states[i], evs[i], states[i + 1]);
    RunWellMarked(h, states, evs, i);
    LeftReleasesCoalesce(h, states, evs, i);
    CoalescedAvailable(h, states[i], n);
    RootIsTop(n);
  }

  lemma MergedRunEmpties(h: nat, states: seq<Marks>, evs: seq<Event>, i: nat)
    requires Run(h, states, evs) && LeftReleases(states, evs) && i < |states|
    requires forall n :: 0 <= n < |states[i]| ==> states[i][n] != USED
    ensures states[i] == states[0]
  {
    RunWellMarked(h, states, evs, i);
    LeftReleasesCoalesce(h, states, evs, i);
    EmptyCoalescedIsFresh(h, states[i]);
  }
}
