/** One set of the cache: its lines, the per-set access counter, the FIFO
    queue, the per-tag hit counts and the PLRU bits; lookup, the update on a
    hit and the choice of a victim under each replacement policy. */
module CacheSets {
  import opened Base
  import opened Policies
  import opened CacheEntry
  import opened Plru

  // ---------------------------------------------------------------------------
  // The state of a set as a value, and what every set keeps true
  // ---------------------------------------------------------------------------

  datatype SetView = SetView(
    entries: seq<Line>,
    counter: nat,          // the set's accessCount, bumped on every hit
    fifo: seq<nat>,        // fifoQueue: fill order of the ways
    freq: map<nat, nat>,   // frequencyCount: hits per tag
    plru: seq<bool>)       // the PLRU tree, heap-indexed

  /** frequencyCount[tag] read through operator[]: an absent tag counts 0. */
  function Freq(m: map<nat, nat>, tag: nat): nat
  {
    if tag in m then m[tag] else 0
  }

  predicate Holds(l: Line, tag: nat)
  {
    l.valid && l.tag == tag
  }

  /** What every set of a running cache satisfies: one line per way, a tree of
      the right size, queue entries that name ways, every filled way queued
      under FIFO, and no time stamp ahead of the counter. */
  predicate WellFormed(v: SetView, policy: ReplacementPolicy, ways: nat)
  {
    && ways >= 1 && |v.entries| == ways
    && |v.plru| == TreeSize(ways)
    && (forall k | 0 <= k < |v.fifo| :: v.fifo[k] < ways)
    && (policy == FIFO ==> forall i | 0 <= i < ways && v.entries[i].valid :: i in v.fifo)
    && (forall i | 0 <= i < ways :: v.entries[i].lastUsed <= v.counter)
  }

  /** No two valid lines of a set hold the same tag. */
  predicate DistinctTags(e: seq<Line>)
  {
    forall i, j | 0 <= i < |e| && 0 <= j < |e| && e[i].valid && e[j].valid && e[i].tag == e[j].tag :: i == j
  }

  /** The set the constructor builds. */
  function InitialSet(ways: nat, blockSize: nat): SetView
    requires ways >= 1
  {
    SetView(seq(ways, _ => NewLine(blockSize)), 0, [], map[], InitialTree(ways))
  }

  lemma InitialSetWellFormed(ways: nat, blockSize: nat, policy: ReplacementPolicy)
    requires ways >= 1
    ensures WellFormed(InitialSet(ways, blockSize), policy, ways)
    ensures DistinctTags(InitialSet(ways, blockSize).entries)
    ensures forall i | 0 <= i < ways :: !InitialSet(ways, blockSize).entries[i].valid
  {
  }

  // ---------------------------------------------------------------------------
  // Lookup and the update on a hit
  // ---------------------------------------------------------------------------

  /** The lowest way at or after i whose line is valid and holds tag. */
  function FindTagFrom(e: seq<Line>, tag: nat, i: nat): (r: Option<nat>)
    requires i <= |e|
    ensures r.Some? ==> i <= r.value < |e| && Holds(e[r.value], tag)
    ensures r.Some? ==> forall j | i <= j < r.value :: !Holds(e[j], tag)
    ensures r.None? <==> forall j | i <= j < |e| :: !Holds(e[j], tag)
    decreases |e| - i
  {
    if i == |e| then None
    else if Holds(e[i], tag) then Some(i)
    else FindTagFrom(e, tag, i + 1)
  }

  function FindTag(e: seq<Line>, tag: nat): Option<nat>
  {
    FindTagFrom(e, tag, 0)
  }

  /** updateAccess(w): the line gets the bumped counter as its time stamp and
      one more access, its tag one more hit, and under PLRU the path to w is
      pointed away from w. */
  function Touched(v: SetView, policy: ReplacementPolicy, w: nat): SetView
    requires w < |v.entries| && |v.plru| == TreeSize(|v.entries|)
  {
    var l := v.entries[w];
    var c := v.counter + 1;
    SetView(
      v.entries[w := l.(lastUsed := c, accessCount := l.accessCount + 1)],
      c,
      v.fifo,
      v.freq[l.tag := Freq(v.freq, l.tag) + 1],
      if policy == PLRU then Touch(v.plru, w, |v.entries|) else v.plru)
  }

  /** A hit keeps the set well formed and its tags distinct, changes no tag and
      no valid bit, makes the hit line strictly the most recent one, leaves
      every other line and every other tag's count alone, and touches the
      PLRU bits only under PLRU. */
  lemma TouchedEffect(v: SetView, policy: ReplacementPolicy, ways: nat, w: nat)
    requires WellFormed(v, policy, ways) && w < ways
    ensures var t := Touched(v, policy, w);
      && WellFormed(t, policy, ways)
      && (DistinctTags(v.entries) ==> DistinctTags(t.entries))
      && t.counter == v.counter + 1
      && t.entries[w].lastUsed == t.counter
      && t.entries[w].accessCount == v.entries[w].accessCount + 1
      && t.entries[w].tag == v.entries[w].tag && t.entries[w].valid == v.entries[w].valid
      && (forall i | 0 <= i < ways && i != w :: t.entries[i] == v.entries[i] && t.entries[i].lastUsed < t.entries[w].lastUsed)
      && Freq(t.freq, v.entries[w].tag) == Freq(v.freq, v.entries[w].tag) + 1
      && (forall tag | tag != v.entries[w].tag :: Freq(t.freq, tag) == Freq(v.freq, tag))
      && t.fifo == v.fifo
      && (policy != PLRU ==> t.plru == v.plru)
  {
  }

  // ---------------------------------------------------------------------------
  // Victim selection
  // ---------------------------------------------------------------------------

  /** The lowest way at or after i whose line is invalid. */
  function FirstInvalidFrom(e: seq<Line>, i: nat): (r: Option<nat>)
    requires i <= |e|
    ensures r.Some? ==> i <= r.value < |e| && !e[r.value].valid
    ensures r.Some? ==> forall j | i <= j < r.value :: e[j].valid
    ensures r.None? <==> forall j | i <= j < |e| :: e[j].valid
    decreases |e| - i
  {
    if i == |e| then None
    else if !e[i].valid then Some(i)
    else FirstInvalidFrom(e, i + 1)
  }

  function FirstInvalid(e: seq<Line>): Option<nat>
  {
    FirstInvalidFrom(e, 0)
  }

  /** std::min_element with a strict less-than: the first position of the least key. */
  function ArgMin(keys: seq<nat>): (r: nat)
    requires |keys| > 0
    ensures r < |keys|
    ensures forall j | 0 <= j < |keys| :: keys[r] <= keys[j]
    ensures forall j | 0 <= j < r :: keys[r] < keys[j]
  {
    if |keys| == 1 then 0
    else
      var m := ArgMin(keys[..|keys| - 1]);
      if keys[|keys| - 1] < keys[m] then |keys| - 1 else m
  }

  /** std::max_element with a strict less-than: the first position of the greatest key. */
  function ArgMax(keys: seq<nat>): (r: nat)
    requires |keys| > 0
    ensures r < |keys|
    ensures forall j | 0 <= j < |keys| :: keys[j] <= keys[r]
    ensures forall j | 0 <= j < r :: keys[j] < keys[r]
  {
    if |keys| == 1 then 0
    else
      var m := ArgMax(keys[..|keys| - 1]);
      if keys[m] < keys[|keys| - 1] then |keys| - 1 else m
  }

  /** The comparison key of findLRUVictim and findMRUVictim. */
  function LastUsedKeys(e: seq<Line>): (k: seq<nat>)
    ensures |k| == |e| && forall i | 0 <= i < |e| :: k[i] == e[i].lastUsed
  {
    seq(|e|, i requires 0 <= i < |e| => e[i].lastUsed)
  }

  /** The comparison key of findLFUVictim: the hit count of each line's tag. */
  /** The per-line access counts, the part of the ARC score that differs
      between the lines of a set. */
  function AccessCountKeys(e: seq<Line>): (k: seq<nat>)
    ensures |k| == |e| && forall i | 0 <= i < |e| :: k[i] == e[i].accessCount
  {
    seq(|e|, i requires 0 <= i < |e| => e[i].accessCount)
  }

  function FreqKeys(e: seq<Line>, m: map<nat, nat>): (k: seq<nat>)
    ensures |k| == |e| && forall i | 0 <= i < |e| :: k[i] == Freq(m, e[i].tag)
  {
    seq(|e|, i requires 0 <= i < |e| => Freq(m, e[i].tag))
  }

  /** The way findVictim picks and the queue it leaves. */
  datatype Eviction = Eviction(way: nat, fifo: seq<nat>)

  /** findVictim: the first empty way (queued under FIFO) if there is one,
      otherwise the policy's choice; `choice` stands for the random draw of
      RANDOM. The ARC score adds to each line's accessCount * 0.7 the term
      0.3 * (seconds since insertionTime), and every line of a set is a copy
      of one prototype whose insertionTime nothing rewrites, so that term is
      the same for all of them and ARC picks the first line with the least
      accessCount. OPTIMAL has no case and throws. */
  function VictimSpec(v: SetView, policy: ReplacementPolicy, ways: nat, choice: nat): Result<Eviction>
    requires WellFormed(v, policy, ways) && choice < ways
  {
    match FirstInvalid(v.entries)
    case Some(i) => Ok(Eviction(i, if policy == FIFO then v.fifo + [i] else v.fifo))
    case None =>
      match policy
      case LRU => Ok(Eviction(ArgMin(LastUsedKeys(v.entries)), v.fifo))
      case MRU => Ok(Eviction(ArgMax(LastUsedKeys(v.entries)), v.fifo))
      case RANDOM => Ok(Eviction(choice, v.fifo))
      case FIFO =>
        assert v.entries[0].valid;
        Ok(Eviction(v.fifo[0], v.fifo[1..] + [v.fifo[0]]))
      case PLRU => Ok(Eviction(Victim(v.plru, ways), v.fifo))
      case LFU => Ok(Eviction(ArgMin(FreqKeys(v.entries, v.freq)), v.fifo))
      case ARC => Ok(Eviction(ArgMin(AccessCountKeys(v.entries)), v.fifo))
      case OPTIMAL => Err(UnknownPolicy)
  }

  /** What findVictim promises, policy by policy, in terms of the lines. */
  lemma VictimMeaning(v: SetView, policy: ReplacementPolicy, ways: nat, choice: nat)
    requires WellFormed(v, policy, ways) && choice < ways
    ensures var r := VictimSpec(v, policy, ways, choice);
      var e := v.entries;
      var full := forall j | 0 <= j < ways :: e[j].valid;
      && (r.Err? <==> full && policy == OPTIMAL)
      && (r.Err? ==> r.error == UnknownPolicy)
      && (r.Ok? ==> r.value.way < ways && (policy == FIFO ==> r.value.way in r.value.fifo))
      && (r.Ok? && !full ==> !e[r.value.way].valid && forall j | 0 <= j < r.value.way :: e[j].valid)
      && (r.Ok? && !full ==> r.value.fifo == if policy == FIFO then v.fifo + [r.value.way] else v.fifo)
      && (full && policy == LRU ==> (r.Ok? &&
            (forall j | 0 <= j < ways :: e[r.value.way].lastUsed <= e[j].lastUsed) &&
            (forall j | 0 <= j < r.value.way :: e[r.value.way].lastUsed < e[j].lastUsed)))
      && (full && policy == MRU ==> (r.Ok? &&
            (forall j | 0 <= j < ways :: e[j].lastUsed <= e[r.value.way].lastUsed) &&
            (forall j | 0 <= j < r.value.way :: e[j].lastUsed < e[r.value.way].lastUsed)))
      && (full && policy == LFU ==> (r.Ok? &&
            (forall j | 0 <= j < ways :: Freq(v.freq, e[r.value.way].tag) <= Freq(v.freq, e[j].tag)) &&
            (forall j | 0 <= j < r.value.way :: Freq(v.freq, e[r.value.way].tag) < Freq(v.freq, e[j].tag))))
      && (full && policy == FIFO ==> (r.Ok? && |v.fifo| > 0 && r.value.way == v.fifo[0] &&
            r.value.fifo == v.fifo[1..] + [v.fifo[0]] && multiset(r.value.fifo) == multiset(v.fifo)))
      && (full && policy == PLRU ==> r == Ok(Eviction(Victim(v.plru, ways), v.fifo)))
      && (full && policy == ARC ==> (r.Ok? && r.value.fifo == v.fifo &&
            (forall j | 0 <= j < ways :: e[r.value.way].accessCount <= e[j].accessCount) &&
            (forall j | 0 <= j < r.value.way :: e[r.value.way].accessCount < e[j].accessCount)))
      && (full && policy == RANDOM ==> r == Ok(Eviction(choice, v.fifo)))
  {
    var e := v.entries;
    if FirstInvalid(e).None? {
      match policy
      case FIFO =>
        assert e[0].valid;
        var q := v.fifo;
        assert q == [q[0]] + q[1..];
        calc {
          multiset(q[1..] + [q[0]]);
          multiset(q[1..]) + multiset([q[0]]);
          multiset([q[0]] + q[1..]);
        }
      case ARC =>
        var k := AccessCountKeys(e);
        assert forall j | 0 <= j < ways :: k[j] == e[j].accessCount;
      case _ =>
    }
  }

  /** Choosing a victim keeps the set well formed and, under FIFO, queues the victim. */
  lemma VictimKeepsWellFormed(v: SetView, policy: ReplacementPolicy, ways: nat, choice: nat)
    requires WellFormed(v, policy, ways) && choice < ways
    ensures var r := VictimSpec(v, policy, ways, choice);
      r.Ok? ==> r.value.way < ways && WellFormed(v.(fifo := r.value.fifo), policy, ways)
  {
    VictimMeaning(v, policy, ways, choice);
  }

  /** The line write of the miss path: only the tag and the valid bit of the
      victim change. */
  function Installed(v: SetView, w: nat, tag: nat): SetView
    requires w < |v.entries|
  {
    v.(entries := v.entries[w := v.entries[w].(tag := tag, valid := true)])
  }

  /** The miss path (victim, then the line write) keeps the set well formed,
      keeps tags distinct when the tag was not present, and leaves the line
      holding the tag. */
  lemma MissPathEffect(v: SetView, policy: ReplacementPolicy, ways: nat, choice: nat, tag: nat)
    requires WellFormed(v, policy, ways) && choice < ways
    requires VictimSpec(v, policy, ways, choice).Ok?
    ensures var ev := VictimSpec(v, policy, ways, choice).value;
      var after := Installed(v.(fifo := ev.fifo), ev.way, tag);
      && WellFormed(after, policy, ways)
      && after.counter == v.counter
      && Holds(after.entries[ev.way], tag)
      && after.entries[ev.way].lastUsed == v.entries[ev.way].lastUsed
      && after.entries[ev.way].accessCount == v.entries[ev.way].accessCount
      && (forall i | 0 <= i < ways && i != ev.way :: after.entries[i] == v.entries[i])
      && (DistinctTags(v.entries) && FindTag(v.entries, tag).None? ==> DistinctTags(after.entries))
  {
    VictimMeaning(v, policy, ways, choice);
    var ev := VictimSpec(v, policy, ways, choice).value;
    var after := Installed(v.(fifo := ev.fifo), ev.way, tag);
    if policy == FIFO {
      forall i | 0 <= i < ways && after.entries[i].valid
        ensures i in after.fifo
      {
        if i != ev.way {
          assert v.entries[i].valid && i in v.fifo;
          assert multiset(ev.fifo) == multiset(v.fifo) || ev.fifo == v.fifo + [ev.way];
          assert i in multiset(v.fifo);
        }
      }
    }
  }

  /** Only a hit bumps the per-set counter (Touched; the miss path leaves it
      alone), so a set that has never had a hit has counter 0, hence every time
      stamp at zero, and under LRU its victim once full is always way 0. */
  lemma NoHitLruEvictsWayZero(v: SetView, ways: nat, choice: nat)
    requires WellFormed(v, LRU, ways) && choice < ways
    requires v.counter == 0
    requires forall i | 0 <= i < ways :: v.entries[i].valid
    ensures forall i | 0 <= i < ways :: v.entries[i].lastUsed == 0
    ensures VictimSpec(v, LRU, ways, choice) == Ok(Eviction(0, v.fifo))
  {
    VictimMeaning(v, LRU, ways, choice);
  }

  /** Right after a hit on way w of a full set, MRU evicts w and, with two ways
      or more, LRU does not. */
  lemma HitThenVictim(v: SetView, policy: ReplacementPolicy, ways: nat, w: nat, choice: nat)
    requires WellFormed(v, policy, ways) && w < ways && choice < ways
    requires forall i | 0 <= i < ways :: v.entries[i].valid
    ensures var t := Touched(v, policy, w);
      && WellFormed(t, policy, ways)
      && (policy == MRU ==> VictimSpec(t, policy, ways, choice) == Ok(Eviction(w, t.fifo)))
      && (policy == LRU && ways >= 2 ==> VictimSpec(t, policy, ways, choice).value.way != w)
  {
    TouchedEffect(v, policy, ways, w);
    var t := Touched(v, policy, w);
    VictimMeaning(t, policy, ways, choice);
    if policy == LRU && ways >= 2 {
      var other := if w == 0 then 1 else 0;
      assert t.entries[other].lastUsed < t.entries[w].lastUsed;
    }
  }

  /** With a power-of-two number of ways, right after a hit on way w of a full
      PLRU set the victim is not w. */
  lemma HitThenPlruVictim(v: SetView, ways: nat, w: nat, choice: nat)
    requires WellFormed(v, PLRU, ways) && w < ways && choice < ways
    requires ways >= 2 && ways == Pow2(Depth(ways))
    requires forall i | 0 <= i < ways :: v.entries[i].valid
    ensures VictimSpec(Touched(v, PLRU, w), PLRU, ways, choice).value.way != w
  {
    TouchedEffect(v, PLRU, ways, w);
    VictimAvoidsTouched(v.plru, w, ways);
  }

  // ---------------------------------------------------------------------------
  // The set object
  // ---------------------------------------------------------------------------

  class CacheSet {
    const ways: nat
    const policy: ReplacementPolicy
    var entries: seq<Line>
    var accessCount: nat
    var fifoQueue: seq<nat>
    var frequencyCount: map<nat, nat>
    var plruBits: seq<bool>

    function View(): SetView
      reads this
    {
      SetView(entries, accessCount, fifoQueue, frequencyCount, plruBits)
    }

    ghost predicate Valid()
      reads this
    {
      WellFormed(View(), policy, ways)
    }

    constructor(ways: nat, blockSize: nat, p: ReplacementPolicy)
      requires ways >= 1
      ensures this.ways == ways && policy == p
      ensures View() == InitialSet(ways, blockSize)
      ensures Valid() && DistinctTags(entries)
    {
      this.ways := ways;
      policy := p;
      entries := seq(ways, _ => NewLine(blockSize));
      accessCount := 0;
      fifoQueue := [];
      frequencyCount := map[];
      plruBits := InitialTree(ways);
      new;
      InitialSetWellFormed(ways, blockSize, p);
    }

    /** lookup: the first valid line holding tag; on a hit updateAccess runs,
        on a miss nothing changes. */
    method Lookup(tag: nat) returns (hit: bool, wayIndex: nat)
      requires Valid()
      modifies this
      ensures Valid()
      ensures hit <==> FindTag(old(entries), tag).Some?
      ensures hit ==> wayIndex == FindTag(old(entries), tag).value
      ensures hit ==> View() == Touched(old(View()), policy, wayIndex)
      ensures !hit ==> View() == old(View())
    {
      var i := 0;
      while i < |entries|
        invariant 0 <= i <= |entries|
        invariant FindTagFrom(entries, tag, i) == FindTag(entries, tag)
      {
        if entries[i].valid && entries[i].tag == tag {
          UpdateAccess(i);
          return true, i;
        }
        i := i + 1;
      }
      return false, 0;
    }

    method UpdateAccess(wayIndex: nat)
      requires Valid() && wayIndex < ways
      modifies this
      ensures Valid()
      ensures View() == Touched(old(View()), policy, wayIndex)
    {
      ghost var before := View();
      TouchedEffect(before, policy, ways, wayIndex);
      accessCount := accessCount + 1;
      var l := entries[wayIndex];
      entries := entries[wayIndex := l.(lastUsed := accessCount, accessCount := l.accessCount + 1)];
      if policy == PLRU {
        UpdatePlruBits(wayIndex);
      }
      var t := entries[wayIndex].tag;
      frequencyCount := frequencyCount[t := Freq(frequencyCount, t) + 1];
    }

    /** updatePLRUBits: from the root down, each node on the way's path gets
        the negation of the way's bit at that level, most significant first. */
    method UpdatePlruBits(accessedWay: nat)
      requires ways >= 1 && accessedWay < ways && |plruBits| == TreeSize(ways)
      modifies this
      ensures plruBits == Touch(old(plruBits), accessedWay, ways)
      ensures entries == old(entries) && accessCount == old(accessCount)
      ensures fifoQueue == old(fifoQueue) && frequencyCount == old(frequencyCount)
    {
      var depth := Depth(ways);
      ShrOfSmall(accessedWay, depth);
      var node := 0;
      var i: int := depth - 1;
      while i >= 0
        invariant -1 <= i < depth
        invariant node == PathNode(accessedWay, depth, depth - 1 - i)
        invariant |plruBits| == Pow2(depth) - 1
        invariant plruBits == TouchLevels(old(plruBits), accessedWay, depth, depth - 1 - i)
        invariant entries == old(entries) && accessCount == old(accessCount)
        invariant fifoQueue == old(fifoQueue) && frequencyCount == old(frequencyCount)
      {
        var level := depth - 1 - i;
        PathNodeRow(accessedWay, depth, level);
        PathStep(accessedWay, depth, level);
        var bit := Shr(accessedWay, i) % 2;
        plruBits := plruBits[node := bit == 0];
        node := if bit == 1 then 2 * node + 2 else 2 * node + 1;
        i := i - 1;
      }
    }

    /** findVictim. The draw of RANDOM comes in as `choice`. */
    method FindVictim(newTag: nat, choice: nat) returns (r: Result<nat>)
      requires Valid() && choice < ways
      modifies this
      ensures Valid()
      ensures var spec := VictimSpec(old(View()), policy, ways, choice);
        && (spec.Ok? ==> r == Ok(spec.value.way) && View() == old(View()).(fifo := spec.value.fifo))
        && (spec.Err? ==> r == Err(spec.error) && View() == old(View()))
    {
      VictimKeepsWellFormed(View(), policy, ways, choice);
      var i := 0;
      while i < |entries|
        invariant 0 <= i <= |entries|
        invariant FirstInvalidFrom(entries, i) == FirstInvalid(entries)
      {
        if !entries[i].valid {
          if policy == FIFO {
            fifoQueue := fifoQueue + [i];
          }
          return Ok(i);
        }
        i := i + 1;
      }
      match policy
      case LRU =>
        var w := FindLruVictim();
        r := Ok(w);
      case MRU =>
        var w := FindMruVictim();
        r := Ok(w);
      case RANDOM =>
        r := Ok(choice);
      case FIFO =>
        assert entries[0].valid;
        var w := FindFifoVictim();
        r := Ok(w);
      case PLRU =>
        var w := FindPlruVictim();
        r := Ok(w);
      case LFU =>
        var w := FindLfuVictim();
        r := Ok(w);
      case ARC =>
        var w := FindArcVictim();
        r := Ok(w);
      case OPTIMAL =>
        r := Err(UnknownPolicy);
    }

    method FindLruVictim() returns (w: nat)
      requires |entries| >= 1
      ensures w == ArgMin(LastUsedKeys(entries))
    {
      w := MinElement(LastUsedKeys(entries));
    }

    method FindMruVictim() returns (w: nat)
      requires |entries| >= 1
      ensures w == ArgMax(LastUsedKeys(entries))
    {
      w := MaxElement(LastUsedKeys(entries));
    }

    method FindLfuVictim() returns (w: nat)
      requires |entries| >= 1
      ensures w == ArgMin(FreqKeys(entries, frequencyCount))
    {
      w := MinElement(FreqKeys(entries, frequencyCount));
    }

    /** findARCVictim: the least score, in which only accessCount differs
        between the lines of a set. */
    method FindArcVictim() returns (w: nat)
      requires |entries| >= 1
      ensures w == ArgMin(AccessCountKeys(entries))
    {
      w := MinElement(AccessCountKeys(entries));
    }

    /** findFIFOVictim: the front of the queue, moved to the back. */
    method FindFifoVictim() returns (w: nat)
      requires |fifoQueue| > 0
      modifies this
      ensures w == old(fifoQueue)[0] && fifoQueue == old(fifoQueue)[1..] + [w]
      ensures entries == old(entries) && accessCount == old(accessCount)
      ensures frequencyCount == old(frequencyCount) && plruBits == old(plruBits)
    {
      w := fifoQueue[0];
      fifoQueue := fifoQueue[1..];
      fifoQueue := fifoQueue + [w];
    }

    /** findPLRUVictim: walk from the root, right on a set bit and left on a
        clear one, collecting the directions as the bits of the index. */
    method FindPlruVictim() returns (w: nat)
      requires ways >= 1 && |entries| == ways && |plruBits| == TreeSize(ways)
      ensures w == Victim(plruBits, ways)
    {
      var depth := Depth(ways);
      var node := 0;
      var index := 0;
      var i := 0;
      while i < depth
        invariant 0 <= i <= depth
        invariant Pow2(i) - 1 <= |plruBits|
        invariant index == WalkPrefix(plruBits, i)
        invariant node == Pow2(i) - 1 + index
      {
        Pow2Monotonic(i + 1, depth);
        if plruBits[node] {
          node := 2 * node + 2;
          index := 2 * index + 1;
        } else {
          node := 2 * node + 1;
          index := 2 * index;
        }
        i := i + 1;
      }
      w := index % |entries|;
    }
  }

  /** std::min_element over the keys. */
  method MinElement(keys: seq<nat>) returns (m: nat)
    requires |keys| > 0
    ensures m == ArgMin(keys)
  {
    m := 0;
    var i := 1;
    while i < |keys|
      invariant 1 <= i <= |keys|
      invariant m == ArgMin(keys[..i])
    {
      assert keys[..i + 1][..i] == keys[..i];
      if keys[i] < keys[m] {
        m := i;
      }
      i := i + 1;
    }
    assert keys[..i] == keys;
  }

  /** std::max_element over the keys. */
  method MaxElement(keys: seq<nat>) returns (m: nat)
    requires |keys| > 0
    ensures m == ArgMax(keys)
  {
    m := 0;
    var i := 1;
    while i < |keys|
      invariant 1 <= i <= |keys|
      invariant m == ArgMax(keys[..i])
    {
      assert keys[..i + 1][..i] == keys[..i];
      if keys[m] < keys[i] {
        m := i;
      }
      i := i + 1;
    }
    assert keys[..i] == keys;
  }
}
