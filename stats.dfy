/** The statistics record: access and miss counters, the hit-rate history,
    per-address access counts and the configuration it reports. */
module Stats {
  import opened Policies

  /** getHitRate on exact reals: hits over accesses, as a percentage, and 0
      before the first access. */
  function HitRate(hits: nat, total: nat): (r: real)
    ensures total == 0 ==> r == 0.0
    ensures total > 0 ==> r * (total as real) == (hits as real) * 100.0
    ensures hits <= total ==> 0.0 <= r <= 100.0
  {
    if total > 0 then
      var r := (hits as real / total as real) * 100.0;
      assert r * (total as real) == (hits as real) * 100.0;
      r
    else 0.0
  }

  /** Every field of the record except the accumulated access time. */
  datatype StatsView = StatsView(
    totalAccesses: nat,
    hits: nat,
    misses: nat,
    coldMisses: nat,
    conflictMisses: nat,
    capacityMisses: nat,
    hitRateHistory: seq<real>,
    addressFrequency: map<nat, nat>,
    ways: int,
    policy: ReplacementPolicy)

  /** The counters agree with each other, and there is one history entry per access. */
  predicate Consistent(s: StatsView)
  {
    && s.hits + s.misses == s.totalAccesses
    && s.misses == s.coldMisses + s.conflictMisses + s.capacityMisses
    && |s.hitRateHistory| == s.totalAccesses
  }

  /** recordAccess: one more access; a hit or a miss, and a miss is cold if
      flagged cold, else conflict if flagged conflict, else capacity; then the
      new hit rate is appended to the history. */
  function Recorded(s: StatsView, isHit: bool, isCold: bool, isConflict: bool): StatsView
  {
    var total := s.totalAccesses + 1;
    var hits := if isHit then s.hits + 1 else s.hits;
    s.(totalAccesses := total,
       hits := hits,
       misses := if isHit then s.misses else s.misses + 1,
       coldMisses := if !isHit && isCold then s.coldMisses + 1 else s.coldMisses,
       conflictMisses := if !isHit && !isCold && isConflict then s.conflictMisses + 1 else s.conflictMisses,
       capacityMisses := if !isHit && !isCold && !isConflict then s.capacityMisses + 1 else s.capacityMisses,
       hitRateHistory := s.hitRateHistory + [HitRate(hits, total)])
  }

  /** One record adds exactly one access, to exactly one of hits and misses and,
      for a miss, to exactly one miss kind; the counters stay consistent and the
      new history entry is the hit rate after the update. */
  lemma RecordedEffect(s: StatsView, isHit: bool, isCold: bool, isConflict: bool)
    requires Consistent(s)
    ensures var t := Recorded(s, isHit, isCold, isConflict);
      && Consistent(t)
      && t.totalAccesses == s.totalAccesses + 1
      && (isHit <==> t.hits == s.hits + 1) && (isHit <==> t.misses == s.misses)
      && t.hitRateHistory[|t.hitRateHistory| - 1] == HitRate(t.hits, t.totalAccesses)
      && t.hitRateHistory[..|s.hitRateHistory|] == s.hitRateHistory
      && (t.coldMisses == s.coldMisses + 1 <==> !isHit && isCold)
      && (t.conflictMisses == s.conflictMisses + 1 <==> !isHit && !isCold && isConflict)
      && (t.capacityMisses == s.capacityMisses + 1 <==> !isHit && !isCold && !isConflict)
      && 0.0 <= t.hitRateHistory[|t.hitRateHistory| - 1] <= 100.0
      && t.addressFrequency == s.addressFrequency && t.ways == s.ways && t.policy == s.policy
  {
  }

  /** A run of records from a consistent state: the counts of the whole run. */
  function RecordAll(s: StatsView, outcomes: seq<(bool, bool, bool)>): StatsView
    decreases |outcomes|
  {
    if outcomes == [] then s
    else
      var o := outcomes[0];
      RecordAll(Recorded(s, o.0, o.1, o.2), outcomes[1..])
  }

  /** After any run the record is still consistent, with as many history
      entries as accesses. */
  lemma {:induction false} RecordAllConsistent(s: StatsView, outcomes: seq<(bool, bool, bool)>)
    requires Consistent(s)
    ensures Consistent(RecordAll(s, outcomes))
    ensures RecordAll(s, outcomes).totalAccesses == s.totalAccesses + |outcomes|
    decreases |outcomes|
  {
    if outcomes != [] {
      var o := outcomes[0];
      RecordedEffect(s, o.0, o.1, o.2);
      RecordAllConsistent(Recorded(s, o.0, o.1, o.2), outcomes[1..]);
    }
  }

  function ResetView(s: StatsView): StatsView
  {
    StatsView(0, 0, 0, 0, 0, 0, [], map[], s.ways, LRU)
  }

  class CacheStats {
    var totalAccesses: nat
    var hits: nat
    var misses: nat
    var coldMisses: nat
    var conflictMisses: nat
    var capacityMisses: nat
    var hitRateHistory: seq<real>
    var addressFrequency: map<nat, nat>
    var ways: int
    var policy: ReplacementPolicy

    function View(): StatsView
      reads this
    {
      StatsView(totalAccesses, hits, misses, coldMisses, conflictMisses, capacityMisses,
                hitRateHistory, addressFrequency, ways, policy)
    }

    /** The in-class defaults: all counters zero, one way, LRU. */
    constructor()
      ensures View() == StatsView(0, 0, 0, 0, 0, 0, [], map[], 1, LRU)
    {
      totalAccesses, hits, misses := 0, 0, 0;
      coldMisses, conflictMisses, capacityMisses := 0, 0, 0;
      hitRateHistory := [];
      addressFrequency := map[];
      ways := 1;
      policy := LRU;
    }

    function GetHitRate(): (r: real)
      reads this
      ensures totalAccesses == 0 ==> r == 0.0
      ensures totalAccesses > 0 ==> r * (totalAccesses as real) == (hits as real) * 100.0
      ensures Consistent(View()) ==> 0.0 <= r <= 100.0
    {
      HitRate(hits, totalAccesses)
    }

    method SetConfiguration(associativity: int, replacementPolicy: ReplacementPolicy)
      modifies this
      ensures View() == old(View()).(ways := associativity, policy := replacementPolicy)
    {
      ways := associativity;
      policy := replacementPolicy;
    }

    method RecordAccess(isHit: bool, isCold: bool, isConflict: bool)
      modifies this
      ensures View() == Recorded(old(View()), isHit, isCold, isConflict)
    {
      totalAccesses := totalAccesses + 1;
      if isHit {
        hits := hits + 1;
      } else {
        misses := misses + 1;
        if isCold {
          coldMisses := coldMisses + 1;
        } else if isConflict {
          conflictMisses := conflictMisses + 1;
        } else {
          capacityMisses := capacityMisses + 1;
        }
      }
      hitRateHistory := hitRateHistory + [GetHitRate()];
    }

    /** reset: every counter, the history and the address counts cleared, the
        policy back to LRU, the associativity kept. */
    method Reset()
      modifies this
      ensures View() == ResetView(old(View()))
      ensures Consistent(View())
    {
      totalAccesses, hits, misses := 0, 0, 0;
      coldMisses, conflictMisses, capacityMisses := 0, 0, 0;
      hitRateHistory := [];
      addressFrequency := map[];
      policy := LRU;
    }
  }
}
