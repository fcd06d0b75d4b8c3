/** A whole run: every trace address accessed in order until the first
    exception, a direct-mapped reference cache that the real one agrees with
    when it has one way, and the first homework trace worked through. */
module Simulation {
  import opened Base
  import opened Policies
  import opened AddressParsing
  import opened CacheEntry
  import opened CacheSets
  import opened Stats
  import opened Caches

  /** The results of a run and the state it ends in. */
  datatype Run = Run(outcomes: seq<Result<AccessResult>>, final: CacheView)

  /** The source's loop over the trace: one access per address in order; an
      access that throws ends the run, with its exception as the last outcome. */
  function RunTrace(c: Config, v: CacheView, toks: seq<string>, choices: seq<nat>): (r: Run)
    requires CacheInv(c, v) && |choices| == |toks|
    requires forall k | 0 <= k < |choices| :: choices[k] < c.ways
    ensures |r.outcomes| <= |toks| && CacheInv(c, r.final)
    ensures toks != [] ==> |r.outcomes| >= 1
    ensures forall k | 0 <= k < |r.outcomes| - 1 :: r.outcomes[k].Ok?
    decreases |toks|
  {
    if toks == [] then Run([], v)
    else
      var st := AccessSpec(c, v, toks[0], choices[0]);
      AccessKeepsInvariant(c, v, toks[0], choices[0]);
      if st.outcome.Err? then Run([st.outcome], st.after)
      else
        var rest := RunTrace(c, st.after, toks[1..], choices[1..]);
        Run([st.outcome] + rest.outcomes, rest.final)
  }

  /** The tag held by the only line of a one-way set, if it is valid. */
  function Resident(s: SetView): Option<nat>
  {
    if |s.entries| > 0 && s.entries[0].valid then Some(s.entries[0].tag) else None
  }

  /** A one-way cache seen as a direct-mapped one: per set index, the tag it holds. */
  function Lines(v: CacheView): (ls: seq<Option<nat>>)
    ensures |ls| == |v.sets|
  {
    Residents(v.sets)
  }

  function Residents(ss: seq<SetView>): (ls: seq<Option<nat>>)
    ensures |ls| == |ss|
  {
    seq(|ss|, i requires 0 <= i < |ss| => Resident(ss[i]))
  }

  /** Changing one set to one that holds the tag changes that set's resident only. */
  lemma ResidentsUpdate(a: seq<SetView>, b: seq<SetView>, i: nat, tag: nat)
    requires |a| == |b| && i < |a| && |b[i].entries| >= 1 && Holds(b[i].entries[0], tag)
    requires forall j | 0 <= j < |a| && j != i :: b[j] == a[j]
    ensures Residents(b) == Residents(a)[i := Some(tag)]
  {
  }

  /** What the reference reports for one access: 'H' or 'M', and whether the
      miss is cold. */
  datatype Verdict = Verdict(hitMiss: char, cold: bool)

  /** The reference direct-mapped cache: an address hits when its set holds its
      tag, a miss stores the tag there, and a miss is cold when the address was
      never accessed before. */
  function DirectRun(g: Geometry, ls: seq<Option<nat>>, seen: set<nat>, addrs: seq<nat>): (vs: seq<Verdict>)
    requires |ls| == Pow2(g.indexBits)
    ensures |vs| == |addrs|
    decreases |addrs|
  {
    if addrs == [] then []
    else
      var a := addrs[0];
      var f := Split(g, a);
      var hit := ls[f.index] == Some(f.tag);
      [Verdict(if hit then 'H' else 'M', !hit && a !in seen)]
        + DirectRun(g, ls[f.index := Some(f.tag)], seen + {a}, addrs[1..])
  }

  /** One access of a one-way cache under any policy with a victim rule: it
      completes, hits exactly when the set holds the tag, is a cold miss exactly
      when it misses on a new address, and leaves the tag in its set and every
      other set's tag where it was. */
  lemma DirectStep(c: Config, v: CacheView, tok: string)
    requires CacheInv(c, v) && c.ways == 1 && c.policy != OPTIMAL
    requires ParseHexToken(tok).Ok?
    ensures var st := AccessSpec(c, v, tok, 0);
      var a := ParseHexToken(tok).value;
      var f := Split(c.layout, a);
      var ls := Lines(v);
      var hit := ls[f.index] == Some(f.tag);
      && f.index < |ls|
      && st.outcome.Ok?
      && st.outcome.value.hitMiss == (if hit then 'H' else 'M')
      && (st.outcome.value.isColdMiss <==> !hit && a !in v.seen)
      && (st.outcome.value.isConflictMiss <==> !hit && a in v.seen)
      && Lines(st.after) == ls[f.index := Some(f.tag)]
      && st.after.seen == v.seen + {a}
  {
    DecodeMeaning(c.layout, v.seen, tok);
    var p := Decode(c.layout, v.seen, tok).value;
    var st := AccessSpec(c, v, tok, 0);
    AccessClassification(c, v, tok, 0);
    OneWayFind(v.sets[p.index].entries, p.tag);
    AccessPlacement(c, v, tok, 0);
    OneWayFind(st.after.sets[p.index].entries, p.tag);
    ResidentsUpdate(v.sets, st.after.sets, p.index, p.tag);
  }

  lemma OneWayFind(e: seq<Line>, tag: nat)
    requires |e| == 1
    ensures FindTag(e, tag).Some? <==> Holds(e[0], tag)
  {
  }

  // ---------------------------------------------------------------------------
  // Counting over a run
  // ---------------------------------------------------------------------------

  /** The 'H'/'M' column of a run's report; 'E' stands for the exception. */
  function Letters(outs: seq<Result<AccessResult>>): (s: string)
    ensures |s| == |outs|
    ensures forall k | 0 <= k < |outs| :: s[k] == (if outs[k].Ok? then outs[k].value.hitMiss else 'E')
    decreases |outs|
  {
    if outs == [] then []
    else [if outs[0].Ok? then outs[0].value.hitMiss else 'E'] + Letters(outs[1..])
  }

  function Occurrences(s: string, ch: char): nat
    decreases |s|
  {
    if s == [] then 0 else (if s[0] == ch then 1 else 0) + Occurrences(s[1..], ch)
  }

  /** How many completed accesses were conflict misses. */
  function Conflicts(outs: seq<Result<AccessResult>>): nat
    decreases |outs|
  {
    if outs == [] then 0
    else (if outs[0].Ok? && outs[0].value.isConflictMiss then 1 else 0) + Conflicts(outs[1..])
  }

  /** What one access does to the counters: a completed access adds one access,
      one hit or one miss as it reports, a conflict miss when it flags one and
      never a capacity miss; an exception leaves the counters alone. */
  lemma StepCounts(c: Config, v: CacheView, tok: string, choice: nat)
    requires CacheInv(c, v) && choice < c.ways
    ensures var st := AccessSpec(c, v, tok, choice);
      var s, t := v.stats, st.after.stats;
      && (st.outcome.Err? ==> t == s)
      && (st.outcome.Ok? ==>
            var r := st.outcome.value;
            && t.totalAccesses == s.totalAccesses + 1
            && t.hits == s.hits + (if r.hitMiss == 'H' then 1 else 0)
            && t.misses == s.misses + (if r.hitMiss == 'M' then 1 else 0)
            && t.conflictMisses == s.conflictMisses + (if r.isConflictMiss then 1 else 0)
            && t.capacityMisses == s.capacityMisses)
  {
    AccessClassification(c, v, tok, choice);
    var d := Decode(c.layout, v.seen, tok);
    if d.Ok? {
      var p := d.value;
      var pl := Placed(v.sets[p.index], c.policy, c.ways, p.tag, choice);
      if pl.way.Ok? {
        var rep := Report(p, pl.hit);
        RecordedEffect(v.stats, pl.hit, rep.isColdMiss, rep.isConflictMiss);
      }
    }
  }

  /** Over a whole run the counters grow by the hits, misses and conflict
      misses the run reports, and by one access per completed access. */
  lemma {:induction false} RunCounts(c: Config, v: CacheView, toks: seq<string>, choices: seq<nat>)
    requires CacheInv(c, v) && |choices| == |toks|
    requires forall k | 0 <= k < |choices| :: choices[k] < c.ways
    ensures var r := RunTrace(c, v, toks, choices);
      var s, t := v.stats, r.final.stats;
      && t.hits == s.hits + Occurrences(Letters(r.outcomes), 'H')
      && t.misses == s.misses + Occurrences(Letters(r.outcomes), 'M')
      && t.conflictMisses == s.conflictMisses + Conflicts(r.outcomes)
      && t.capacityMisses == s.capacityMisses
      && t.totalAccesses == s.totalAccesses + |r.outcomes| - Occurrences(Letters(r.outcomes), 'E')
    decreases |toks|
  {
    if toks != [] {
      var st := AccessSpec(c, v, toks[0], choices[0]);
      StepCounts(c, v, toks[0], choices[0]);
      AccessKeepsInvariant(c, v, toks[0], choices[0]);
      var r := RunTrace(c, v, toks, choices);
      if st.outcome.Ok? {
        var rest := RunTrace(c, st.after, toks[1..], choices[1..]);
        RunCounts(c, st.after, toks[1..], choices[1..]);
        assert r.outcomes == [st.outcome] + rest.outcomes;
        assert Letters(r.outcomes) == [st.outcome.value.hitMiss] + Letters(rest.outcomes);
        assert r.outcomes[1..] == rest.outcomes;
      }
    }
  }

  // ---------------------------------------------------------------------------
  // The direct-mapped reference
  // ---------------------------------------------------------------------------

  /** The value of every token of a trace whose tokens all parse. */
  function Addresses(toks: seq<string>): (as_: seq<nat>)
    requires forall k | 0 <= k < |toks| :: ParseHexToken(toks[k]).Ok?
    ensures |as_| == |toks|
    decreases |toks|
  {
    if toks == [] then [] else [ParseHexToken(toks[0]).value] + Addresses(toks[1..])
  }

  function Zeros(n: nat): (z: seq<nat>)
    ensures |z| == n && forall k | 0 <= k < n :: z[k] == 0
  {
    seq(n, _ => 0)
  }

  /** Every outcome completed, with the reference's verdict. */
  predicate Agrees(outs: seq<Result<AccessResult>>, ref: seq<Verdict>)
  {
    && |outs| == |ref|
    && forall k | 0 <= k < |outs| ::
         && outs[k].Ok? && outs[k].value.hitMiss == ref[k].hitMiss && outs[k].value.isColdMiss == ref[k].cold
         && (outs[k].value.isConflictMiss <==> ref[k].hitMiss == 'M' && !ref[k].cold)
  }

  lemma AgreesCons(o: Result<AccessResult>, outs: seq<Result<AccessResult>>, x: Verdict, ref: seq<Verdict>)
    requires o.Ok? && o.value.hitMiss == x.hitMiss && o.value.isColdMiss == x.cold
    requires o.value.isConflictMiss <==> x.hitMiss == 'M' && !x.cold
    requires Agrees(outs, ref)
    ensures Agrees([o] + outs, [x] + ref)
  {
    assert forall k | 1 <= k <= |outs| :: ([o] + outs)[k] == outs[k - 1] && ([x] + ref)[k] == ref[k - 1];
  }

  /** A run whose first access completes is that access followed by the run
      of the rest from the state it leaves. */
  lemma RunTraceCons(c: Config, v: CacheView, toks: seq<string>, choices: seq<nat>)
    requires CacheInv(c, v) && |choices| == |toks| && toks != []
    requires forall k | 0 <= k < |choices| :: choices[k] < c.ways
    requires AccessSpec(c, v, toks[0], choices[0]).outcome.Ok?
    ensures var st := AccessSpec(c, v, toks[0], choices[0]);
      && CacheInv(c, st.after)
      && RunTrace(c, v, toks, choices).outcomes
         == [st.outcome] + RunTrace(c, st.after, toks[1..], choices[1..]).outcomes
  {
    AccessKeepsInvariant(c, v, toks[0], choices[0]);
  }

  /** A one-way cache under any policy with a victim rule is the reference
      direct-mapped cache: every access of a well-formed trace completes, with
      the hit or miss and the cold flag the reference gives. */
  lemma {:induction false} DirectMappedAgrees(c: Config, v: CacheView, toks: seq<string>)
    requires CacheInv(c, v) && c.ways == 1 && c.policy != OPTIMAL
    requires forall k | 0 <= k < |toks| :: ParseHexToken(toks[k]).Ok?
    ensures |Lines(v)| == Pow2(c.layout.indexBits)
    ensures Agrees(RunTrace(c, v, toks, Zeros(|toks|)).outcomes,
                   DirectRun(c.layout, Lines(v), v.seen, Addresses(toks)))
    decreases |toks|
  {
    if toks != [] {
      var st := AccessSpec(c, v, toks[0], 0);
      DirectStep(c, v, toks[0]);
      var a := ParseHexToken(toks[0]).value;
      var f := Split(c.layout, a);
      var x := Verdict(if Lines(v)[f.index] == Some(f.tag) then 'H' else 'M',
                       Lines(v)[f.index] != Some(f.tag) && a !in v.seen);
      var tail := toks[1..];
      assert Zeros(|toks|)[1..] == Zeros(|tail|);
      assert forall k | 0 <= k < |tail| :: tail[k] == toks[k + 1];
      RunTraceCons(c, v, toks, Zeros(|toks|));
      var rest := RunTrace(c, st.after, tail, Zeros(|tail|)).outcomes;
      var refRest := DirectRun(c.layout, Lines(st.after), st.after.seen, Addresses(tail));
      assert DirectRun(c.layout, Lines(v), v.seen, Addresses(toks)) == [x] + refRest;
      DirectMappedAgrees(c, st.after, tail);
      AgreesCons(st.outcome, rest, x, refRest);
    }
  }

  // ---------------------------------------------------------------------------
  // Two-digit traces
  // ---------------------------------------------------------------------------

  /** A trace token: 'x' and two hexadecimal digits. */
  function Token(d1: char, d2: char): string
  {
    ['x', d1, d2]
  }

  predicate HexPairs(ds: seq<(char, char)>)
  {
    forall k | 0 <= k < |ds| :: IsHexDigit(ds[k].0) && IsHexDigit(ds[k].1)
  }

  function Tokens(ds: seq<(char, char)>): (ts: seq<string>)
    ensures |ts| == |ds|
  {
    seq(|ds|, k requires 0 <= k < |ds| => Token(ds[k].0, ds[k].1))
  }

  function Values(ds: seq<(char, char)>): (vs: seq<nat>)
    requires HexPairs(ds)
    ensures |vs| == |ds|
  {
    seq(|ds|, k requires 0 <= k < |ds| => 16 * HexDigitValue(ds[k].0) + HexDigitValue(ds[k].1))
  }

  lemma TwoDigitToken(d1: char, d2: char)
    requires IsHexDigit(d1) && IsHexDigit(d2)
    ensures ParseHexToken(Token(d1, d2)) == Ok(16 * HexDigitValue(d1) + HexDigitValue(d2))
  {
    var t := Token(d1, d2);
    assert FindChar(t, 'x') == Some(0);
    assert AfterFirstX(t) == [d1, d2];
    assert LeadingHexDigits([d2]) == 1;
    assert LeadingHexDigits([d1, d2]) == 2 by {
      assert [d1, d2][1..] == [d2];
    }
    assert [d1, d2][..2] == [d1, d2];
    assert HexValue([d1, d2]) == 16 * HexValue([d1]) + HexDigitValue(d2) by {
      assert [d1, d2][..1] == [d1];
    }
    assert HexValue([d1]) == HexDigitValue(d1) by {
      assert [d1][..0] == [];
    }
  }

  /** Every token of a two-digit trace parses, to the value of its digits. */
  lemma TokensParse(ds: seq<(char, char)>)
    requires HexPairs(ds)
    ensures forall k | 0 <= k < |ds| :: ParseHexToken(Tokens(ds)[k]).Ok?
    ensures Addresses(Tokens(ds)) == Values(ds)
  {
    forall k | 0 <= k < |ds|
      ensures ParseHexToken(Tokens(ds)[k]) == Ok(Values(ds)[k])
    {
      TwoDigitToken(ds[k].0, ds[k].1);
    }
    AddressesAt(Tokens(ds));
  }

  /** Each token of a well-formed trace contributes its value, in order. */
  lemma {:induction false} AddressesAt(toks: seq<string>)
    requires forall k | 0 <= k < |toks| :: ParseHexToken(toks[k]).Ok?
    ensures forall k | 0 <= k < |toks| :: Addresses(toks)[k] == ParseHexToken(toks[k]).value
    decreases |toks|
  {
    if toks != [] {
      AddressesAt(toks[1..]);
      assert forall k | 1 <= k < |toks| :: toks[1..][k - 1] == toks[k];
    }
  }

  // ---------------------------------------------------------------------------
  // The first homework trace
  // ---------------------------------------------------------------------------

  const HW1Digits: seq<(char, char)> :=
    [('0', '0'), ('F', 'D'), ('0', '1'), ('B', '4'), ('2', 'B'), ('B', '5'), ('0', '2'),
     ('B', 'C'), ('B', 'E'), ('0', '3'), ('5', '8'), ('B', 'F'), ('2', 'C')]

  /** x00 xFD x01 xB4 x2B xB5 x02 xBC xBE x03 x58 xBF x2C */
  const HW1Trace: seq<string> := Tokens(HW1Digits)

  /** The trace is the fixture's thirteen tokens, as written. */
  lemma HW1TraceTokens()
    ensures HW1Trace == ["x00", "xFD", "x01", "xB4", "x2B", "xB5", "x02",
                         "xBC", "xBE", "x03", "x58", "xBF", "x2C"]
  {
  }

  /** Direct mapping with a 32-bit address, 8-byte blocks and 16 sets. */
  const HW1Setup := Config(32, 8, 16, 1, LRU, Geometry(32, 3, 4))

  lemma HW1Config()
    ensures Configure(32, 8, 16, 1, LRU) == Ok(HW1Setup)
  {
    assert CeilLog2(8) == 3 && CeilLog2(16) == 4 && NextPow2(8) == 8 && NextPow2(16) == 16;
    assert FloorLog2(8) == 3 && FloorLog2(16) == 4;
  }

  lemma HW1Values()
    ensures HexPairs(HW1Digits)
    ensures Values(HW1Digits) == [0x00, 0xFD, 0x01, 0xB4, 0x2B, 0xB5, 0x02, 0xBC, 0xBE, 0x03, 0x58, 0xBF, 0x2C]
  {
  }

  /** The thirteen addresses of the trace, position by position. */
  predicate HW1Addressed(addrs: seq<nat>)
  {
    && |addrs| == 13
    && addrs[0] == 0x00 && addrs[1] == 0xFD && addrs[2] == 0x01 && addrs[3] == 0xB4
    && addrs[4] == 0x2B && addrs[5] == 0xB5 && addrs[6] == 0x02 && addrs[7] == 0xBC
    && addrs[8] == 0xBE && addrs[9] == 0x03 && addrs[10] == 0x58 && addrs[11] == 0xBF
    && addrs[12] == 0x2C
  }

  lemma HW1Addresses()
    ensures forall k | 0 <= k < |HW1Trace| :: ParseHexToken(HW1Trace[k]).Ok?
    ensures Addresses(HW1Trace) == [0x00, 0xFD, 0x01, 0xB4, 0x2B, 0xB5, 0x02, 0xBC, 0xBE, 0x03, 0x58, 0xBF, 0x2C]
  {
    HW1Values();
    TokensParse(HW1Digits);
  }

  lemma HW1AddressedList(addrs: seq<nat>)
    requires addrs == [0x00, 0xFD, 0x01, 0xB4, 0x2B, 0xB5, 0x02, 0xBC, 0xBE, 0x03, 0x58, 0xBF, 0x2C]
    ensures HW1Addressed(addrs)
  {
  }

  /** With 3 offset bits and 4 index bits an address below 256 splits into
      its top bit, the next four bits and the low three. */
  lemma HW1Split(t: nat, i: nat, o: nat)
    requires t < 2 && i < 16 && o < 8
    ensures Split(Geometry(32, 3, 4), 128 * t + 8 * i + o) == Fields(t, i, o)
  {
    ShlIsMul(t, 7);
    ShlIsMul(i, 3);
    assert Pow2(3) == 8 && Pow2(4) == 16 && Pow2(7) == 128;
    SplitUnique(Geometry(32, 3, 4), 128 * t + 8 * i + o, Fields(t, i, o));
  }

  /** The reference's lines after a run of addresses. */
  function DirectLines(g: Geometry, ls: seq<Option<nat>>, addrs: seq<nat>): (r: seq<Option<nat>>)
    requires |ls| == Pow2(g.indexBits)
    ensures |r| == |ls|
    decreases |addrs|
  {
    if addrs == [] then ls
    else
      var f := Split(g, addrs[0]);
      DirectLines(g, ls[f.index := Some(f.tag)], addrs[1..])
  }

  /** The reference on a trace in two parts: the first part, then the second
      from the lines and seen addresses the first leaves. */
  lemma {:induction false} DirectRunAppend(g: Geometry, ls: seq<Option<nat>>, seen: set<nat>, a: seq<nat>, b: seq<nat>)
    requires |ls| == Pow2(g.indexBits)
    ensures DirectRun(g, ls, seen, a + b)
         == DirectRun(g, ls, seen, a) + DirectRun(g, DirectLines(g, ls, a), seen + (set x | x in a), b)
    decreases |a|
  {
    if a == [] {
      assert a + b == b;
      assert seen + (set x | x in a) == seen;
    } else {
      var f := Split(g, a[0]);
      assert (a + b)[0] == a[0] && (a + b)[1..] == a[1..] + b;
      DirectRunAppend(g, ls[f.index := Some(f.tag)], seen + {a[0]}, a[1..], b);
      assert seen + {a[0]} + (set x | x in a[1..]) == seen + (set x | x in a);
    }
  }

  /** One more step of the reference. */
  lemma DirectRunCons(g: Geometry, ls: seq<Option<nat>>, seen: set<nat>, addrs: seq<nat>, f: Fields)
    requires |ls| == Pow2(g.indexBits) && addrs != [] && Split(g, addrs[0]) == f
    ensures f.index < |ls|
    ensures DirectRun(g, ls, seen, addrs)
         == [Verdict(if ls[f.index] == Some(f.tag) then 'H' else 'M', ls[f.index] != Some(f.tag) && addrs[0] !in seen)]
            + DirectRun(g, ls[f.index := Some(f.tag)], seen + {addrs[0]}, addrs[1..])
  {
  }

  const HW1Geometry := Geometry(32, 3, 4)

  /** The sixteen lines of the reference before the trace and after every
      second access, the addresses seen by then, and the verdicts of each
      pair of accesses. */
  const HW1Lines0: seq<Option<nat>> :=
    [None, None, None, None, None, None, None, None, None, None, None, None, None, None, None, None]
  const HW1Lines1 := HW1Lines0[0 := Some(0)][15 := Some(1)]
  const HW1Lines2 := HW1Lines1[0 := Some(0)][6 := Some(1)]
  const HW1Lines3 := HW1Lines2[5 := Some(0)][6 := Some(1)]
  const HW1Lines4 := HW1Lines3[0 := Some(0)][7 := Some(1)]
  const HW1Lines5 := HW1Lines4[7 := Some(1)][0 := Some(0)]
  const HW1Lines6 := HW1Lines5[11 := Some(0)][7 := Some(1)]
  const HW1Seen0: set<nat> := {}
  const HW1Seen1 := HW1Seen0 + {0x00} + {0xFD}
  const HW1Seen2 := HW1Seen1 + {0x01} + {0xB4}
  const HW1Seen3 := HW1Seen2 + {0x2B} + {0xB5}
  const HW1Seen4 := HW1Seen3 + {0x02} + {0xBC}
  const HW1Seen5 := HW1Seen4 + {0xBE} + {0x03}
  const HW1Seen6 := HW1Seen5 + {0x58} + {0xBF}
  const HW1Verdicts0: seq<Verdict> := [Verdict('M', true), Verdict('M', true)]
  const HW1Verdicts1: seq<Verdict> := [Verdict('H', false), Verdict('M', true)]
  const HW1Verdicts2: seq<Verdict> := [Verdict('M', true), Verdict('H', false)]
  const HW1Verdicts3: seq<Verdict> := [Verdict('H', false), Verdict('M', true)]
  const HW1Verdicts4: seq<Verdict> := [Verdict('H', false), Verdict('H', false)]
  const HW1Verdicts5: seq<Verdict> := [Verdict('M', true), Verdict('H', false)]
  const HW1Verdicts6: seq<Verdict> := [Verdict('H', false)]

  /** M M H M M H H M H H M H H, every miss cold. */
  const HW1Verdicts: seq<Verdict> :=
    [Verdict('M', true), Verdict('M', true), Verdict('H', false), Verdict('M', true),
     Verdict('M', true), Verdict('H', false), Verdict('H', false), Verdict('M', true),
     Verdict('H', false), Verdict('H', false), Verdict('M', true), Verdict('H', false),
     Verdict('H', false)]

  lemma HW1VerdictsJoin()
    ensures HW1Verdicts0 + (HW1Verdicts1 + (HW1Verdicts2 + (HW1Verdicts3 + (HW1Verdicts4 + (HW1Verdicts5 + HW1Verdicts6))))) == HW1Verdicts
  {
  }

  lemma HW1Pair0(ls: seq<Option<nat>>, seen: set<nat>, addrs: seq<nat>)
    requires |ls| == 16 && |addrs| >= 2
    requires ls[0] == None && ls[15] == None
    requires 0x00 !in seen && 0xFD !in seen
    requires addrs[0] == 0x00 && addrs[1] == 0xFD
    ensures DirectRun(HW1Geometry, ls, seen, addrs)
         == HW1Verdicts0 + DirectRun(HW1Geometry, ls[0 := Some(0)][15 := Some(1)], seen + {0x00} + {0xFD}, addrs[2..])
  {
    HW1Split(0, 0, 0);
    DirectRunCons(HW1Geometry, ls, seen, addrs, Fields(0, 0, 0));
    HW1Split(1, 15, 5);
    DirectRunCons(HW1Geometry, ls[0 := Some(0)], seen + {0x00}, addrs[1..], Fields(1, 15, 5));
    assert addrs[1..][1..] == addrs[2..];
  }

  lemma HW1Pair1(ls: seq<Option<nat>>, seen: set<nat>, addrs: seq<nat>)
    requires |ls| == 16 && |addrs| >= 2
    requires ls[0] == Some(0) && ls[6] == None
    requires 0xB4 !in seen
    requires addrs[0] == 0x01 && addrs[1] == 0xB4
    ensures DirectRun(HW1Geometry, ls, seen, addrs)
         == HW1Verdicts1 + DirectRun(HW1Geometry, ls[0 := Some(0)][6 := Some(1)], seen + {0x01} + {0xB4}, addrs[2..])
  {
    HW1Split(0, 0, 1);
    DirectRunCons(HW1Geometry, ls, seen, addrs, Fields(0, 0, 1));
    HW1Split(1, 6, 4);
    DirectRunCons(HW1Geometry, ls[0 := Some(0)], seen + {0x01}, addrs[1..], Fields(1, 6, 4));
    assert addrs[1..][1..] == addrs[2..];
  }

  lemma HW1Pair2(ls: seq<Option<nat>>, seen: set<nat>, addrs: seq<nat>)
    requires |ls| == 16 && |addrs| >= 2
    requires ls[5] == None && ls[6] == Some(1)
    requires 0x2B !in seen
    requires addrs[0] == 0x2B && addrs[1] == 0xB5
    ensures DirectRun(HW1Geometry, ls, seen, addrs)
         == HW1Verdicts2 + DirectRun(HW1Geometry, ls[5 := Some(0)][6 := Some(1)], seen + {0x2B} + {0xB5}, addrs[2..])
  {
    HW1Split(0, 5, 3);
    DirectRunCons(HW1Geometry, ls, seen, addrs, Fields(0, 5, 3));
    HW1Split(1, 6, 5);
    DirectRunCons(HW1Geometry, ls[5 := Some(0)], seen + {0x2B}, addrs[1..], Fields(1, 6, 5));
    assert addrs[1..][1..] == addrs[2..];
  }

  lemma HW1Pair3(ls: seq<Option<nat>>, seen: set<nat>, addrs: seq<nat>)
    requires |ls| == 16 && |addrs| >= 2
    requires ls[0] == Some(0) && ls[7] == None
    requires 0xBC !in seen
    requires addrs[0] == 0x02 && addrs[1] == 0xBC
    ensures DirectRun(HW1Geometry, ls, seen, addrs)
         == HW1Verdicts3 + DirectRun(HW1Geometry, ls[0 := Some(0)][7 := Some(1)], seen + {0x02} + {0xBC}, addrs[2..])
  {
    HW1Split(0, 0, 2);
    DirectRunCons(HW1Geometry, ls, seen, addrs, Fields(0, 0, 2));
    HW1Split(1, 7, 4);
    DirectRunCons(HW1Geometry, ls[0 := Some(0)], seen + {0x02}, addrs[1..], Fields(1, 7, 4));
    assert addrs[1..][1..] == addrs[2..];
  }

  lemma HW1Pair4(ls: seq<Option<nat>>, seen: set<nat>, addrs: seq<nat>)
    requires |ls| == 16 && |addrs| >= 2
    requires ls[7] == Some(1) && ls[0] == Some(0)
    requires addrs[0] == 0xBE && addrs[1] == 0x03
    ensures DirectRun(HW1Geometry, ls, seen, addrs)
         == HW1Verdicts4 + DirectRun(HW1Geometry, ls[7 := Some(1)][0 := Some(0)], seen + {0xBE} + {0x03}, addrs[2..])
  {
    HW1Split(1, 7, 6);
    DirectRunCons(HW1Geometry, ls, seen, addrs, Fields(1, 7, 6));
    HW1Split(0, 0, 3);
    DirectRunCons(HW1Geometry, ls[7 := Some(1)], seen + {0xBE}, addrs[1..], Fields(0, 0, 3));
    assert addrs[1..][1..] == addrs[2..];
  }

  lemma HW1Pair5(ls: seq<Option<nat>>, seen: set<nat>, addrs: seq<nat>)
    requires |ls| == 16 && |addrs| >= 2
    requires ls[11] == None && ls[7] == Some(1)
    requires 0x58 !in seen
    requires addrs[0] == 0x58 && addrs[1] == 0xBF
    ensures DirectRun(HW1Geometry, ls, seen, addrs)
         == HW1Verdicts5 + DirectRun(HW1Geometry, ls[11 := Some(0)][7 := Some(1)], seen + {0x58} + {0xBF}, addrs[2..])
  {
    HW1Split(0, 11, 0);
    DirectRunCons(HW1Geometry, ls, seen, addrs, Fields(0, 11, 0));
    HW1Split(1, 7, 7);
    DirectRunCons(HW1Geometry, ls[11 := Some(0)], seen + {0x58}, addrs[1..], Fields(1, 7, 7));
    assert addrs[1..][1..] == addrs[2..];
  }

  lemma HW1Pair6(ls: seq<Option<nat>>, seen: set<nat>, addrs: seq<nat>)
    requires |ls| == 16 && |addrs| == 1
    requires ls[5] == Some(0)
    requires addrs[0] == 0x2C
    ensures DirectRun(HW1Geometry, ls, seen, addrs) == HW1Verdicts6
  {
    HW1Split(0, 5, 4);
    DirectRunCons(HW1Geometry, ls, seen, addrs, Fields(0, 5, 4));
    assert addrs[0..][1..] == [];
  }

  lemma HW1Part0(addrs: seq<nat>)
    requires |addrs| == 13 && addrs[0] == 0x00 && addrs[1] == 0xFD
    ensures DirectRun(HW1Geometry, HW1Lines0, HW1Seen0, addrs[0..])
         == HW1Verdicts0 + DirectRun(HW1Geometry, HW1Lines1, HW1Seen1, addrs[2..])
  {
    HW1Pair0(HW1Lines0, HW1Seen0, addrs[0..]);
    assert addrs[0..][2..] == addrs[2..];
  }

  lemma HW1Part1(addrs: seq<nat>)
    requires |addrs| == 13 && addrs[2] == 0x01 && addrs[3] == 0xB4
    ensures DirectRun(HW1Geometry, HW1Lines1, HW1Seen1, addrs[2..])
         == HW1Verdicts1 + DirectRun(HW1Geometry, HW1Lines2, HW1Seen2, addrs[4..])
  {
    HW1Pair1(HW1Lines1, HW1Seen1, addrs[2..]);
    assert addrs[2..][2..] == addrs[4..];
  }

  lemma HW1Part2(addrs: seq<nat>)
    requires |addrs| == 13 && addrs[4] == 0x2B && addrs[5] == 0xB5
    ensures DirectRun(HW1Geometry, HW1Lines2, HW1Seen2, addrs[4..])
         == HW1Verdicts2 + DirectRun(HW1Geometry, HW1Lines3, HW1Seen3, addrs[6..])
  {
    HW1Pair2(HW1Lines2, HW1Seen2, addrs[4..]);
    assert addrs[4..][2..] == addrs[6..];
  }

  lemma HW1Part3(addrs: seq<nat>)
    requires |addrs| == 13 && addrs[6] == 0x02 && addrs[7] == 0xBC
    ensures DirectRun(HW1Geometry, HW1Lines3, HW1Seen3, addrs[6..])
         == HW1Verdicts3 + DirectRun(HW1Geometry, HW1Lines4, HW1Seen4, addrs[8..])
  {
    HW1Pair3(HW1Lines3, HW1Seen3, addrs[6..]);
    assert addrs[6..][2..] == addrs[8..];
  }

  lemma HW1Part4(addrs: seq<nat>)
    requires |addrs| == 13 && addrs[8] == 0xBE && addrs[9] == 0x03
    ensures DirectRun(HW1Geometry, HW1Lines4, HW1Seen4, addrs[8..])
         == HW1Verdicts4 + DirectRun(HW1Geometry, HW1Lines5, HW1Seen5, addrs[10..])
  {
    HW1Pair4(HW1Lines4, HW1Seen4, addrs[8..]);
    assert addrs[8..][2..] == addrs[10..];
  }

  lemma HW1Part5(addrs: seq<nat>)
    requires |addrs| == 13 && addrs[10] == 0x58 && addrs[11] == 0xBF
    ensures DirectRun(HW1Geometry, HW1Lines5, HW1Seen5, addrs[10..])
         == HW1Verdicts5 + DirectRun(HW1Geometry, HW1Lines6, HW1Seen6, addrs[12..])
  {
    HW1Pair5(HW1Lines5, HW1Seen5, addrs[10..]);
    assert addrs[10..][2..] == addrs[12..];
  }

  lemma HW1Part6(addrs: seq<nat>)
    requires |addrs| == 13 && addrs[12] == 0x2C
    ensures DirectRun(HW1Geometry, HW1Lines6, HW1Seen6, addrs[12..]) == HW1Verdicts6
  {
    HW1Pair6(HW1Lines6, HW1Seen6, addrs[12..]);
  }

  /** The reference direct-mapped cache on the trace's values, from empty:
      M M H M M H H M H H M H H, every miss cold. */
  lemma HW1Reference(addrs: seq<nat>)
    requires HW1Addressed(addrs)
    ensures DirectRun(HW1Geometry, HW1Lines0, {}, addrs) == HW1Verdicts
  {
    assert addrs[0..] == addrs;
    HW1Part0(addrs);
    HW1Part1(addrs);
    HW1Part2(addrs);
    HW1Part3(addrs);
    HW1Part4(addrs);
    HW1Part5(addrs);
    HW1Part6(addrs);
    HW1VerdictsJoin();
  }

  /** The reference verdicts letter by letter; every miss among them is cold. */
  lemma HW1VerdictLetters()
    ensures |HW1Verdicts| == 13
    ensures HW1Verdicts[0].hitMiss == 'M' && HW1Verdicts[1].hitMiss == 'M' && HW1Verdicts[2].hitMiss == 'H' && HW1Verdicts[3].hitMiss == 'M'
    ensures HW1Verdicts[4].hitMiss == 'M' && HW1Verdicts[5].hitMiss == 'H' && HW1Verdicts[6].hitMiss == 'H' && HW1Verdicts[7].hitMiss == 'M'
    ensures HW1Verdicts[8].hitMiss == 'H' && HW1Verdicts[9].hitMiss == 'H' && HW1Verdicts[10].hitMiss == 'M' && HW1Verdicts[11].hitMiss == 'H' && HW1Verdicts[12].hitMiss == 'H'
    ensures forall k | 0 <= k < 13 :: HW1Verdicts[k].cold <==> HW1Verdicts[k].hitMiss == 'M'
  {
  }

  /** Outcomes agreeing with the reference are the expected letters, every miss
      cold and none a conflict. */
  lemma HW1Letters(outs: seq<Result<AccessResult>>)
    requires Agrees(outs, HW1Verdicts)
    ensures Letters(outs) == "MMHMMHHMHHMHH"
    ensures forall k | 0 <= k < |outs| ::
      && outs[k].Ok? && (outs[k].value.isColdMiss <==> outs[k].value.hitMiss == 'M')
      && !outs[k].value.isConflictMiss
  {
    HW1VerdictLetters();
    var ls := Letters(outs);
    var col := "MMHMMHHMHHMHH";
    assert |col| == 13;
    assert col[0] == 'M';
    assert col[1] == 'M';
    assert col[2] == 'H';
    assert col[3] == 'M';
    assert col[4] == 'M';
    assert col[5] == 'H';
    assert col[6] == 'H';
    assert col[7] == 'M';
    assert col[8] == 'H';
    assert col[9] == 'H';
    assert col[10] == 'M';
    assert col[11] == 'H';
    assert col[12] == 'H';
    forall k | 0 <= k < 13
      ensures ls[k] == col[k]
    {
      assert ls[k] == HW1Verdicts[k].hitMiss;
    }
  }

  /** A one-way cache holding nothing, run over the trace's addresses, agrees
      with the reference. */
  lemma HW1Agrees(c: Config, v: CacheView, toks: seq<string>)
    requires CacheInv(c, v) && c.ways == 1 && c.policy == LRU && c.layout == HW1Geometry
    requires Lines(v) == HW1Lines0 && v.seen == {}
    requires forall k | 0 <= k < |toks| :: ParseHexToken(toks[k]).Ok?
    requires HW1Addressed(Addresses(toks))
    ensures Agrees(RunTrace(c, v, toks, Zeros(|toks|)).outcomes, HW1Verdicts)
  {
    DirectMappedAgrees(c, v, toks);
    HW1Reference(Addresses(toks));
  }

  /** In that configuration the empty cache holds no line. */
  lemma HW1Empty(c: Config)
    requires WellConfigured(c) && c.numSets == 16 && c.blockSize == 8 && c.ways == 1
    ensures CacheInv(c, InitialCache(c))
    ensures Lines(InitialCache(c)) == HW1Lines0 && InitialCache(c).seen == {}
  {
    InitialCacheInv(c);
    var v := InitialCache(c);
    forall k | 0 <= k < 16
      ensures Lines(v)[k] == None
    {
      assert v.sets[k] == InitialSet(1, 8);
    }
  }

  /** The first homework fixture: in the configuration of N = 32, B = 8,
      I = 16, one way and LRU (HW1Config), any trace of the addresses of x00
      xFD x01 xB4 x2B xB5 x02 xBC xBE x03 x58 xBF x2C (HW1Addresses shows
      HW1Trace is one) run from an empty cache gives the verdicts HW1Verdicts,
      which HW1Letters reads as M M H M M H H M H H M H H, every miss cold,
      and the statistics end with 13 accesses, 7 hits and 6 misses, all cold. */
  lemma HW1Fixture(c: Config, toks: seq<string>)
    requires WellConfigured(c) && c.numSets == 16 && c.blockSize == 8
    requires c.ways == 1 && c.policy == LRU && c.layout == HW1Geometry
    requires forall k | 0 <= k < |toks| :: ParseHexToken(toks[k]).Ok?
    requires Addresses(toks) == [0x00, 0xFD, 0x01, 0xB4, 0x2B, 0xB5, 0x02, 0xBC, 0xBE, 0x03, 0x58, 0xBF, 0x2C]
    ensures CacheInv(c, InitialCache(c))
    ensures Agrees(RunTrace(c, InitialCache(c), toks, Zeros(|toks|)).outcomes, HW1Verdicts)
    ensures HW1Totals(RunTrace(c, InitialCache(c), toks, Zeros(|toks|)).final.stats)
  {
    HW1AddressedList(Addresses(toks));
    HW1Empty(c);
    HW1Agrees(c, InitialCache(c), toks);
    var outs := RunTrace(c, InitialCache(c), toks, Zeros(|toks|)).outcomes;
    HW1Counts(outs);
    HW1StatsFrom(c, InitialCache(c), toks, Zeros(|toks|));
  }

  /** The fixture exactly as the test suite states it: Configure(32, 8, 16,
      1, LRU) builds HW1Setup, and that cache, fed the thirteen tokens from
      empty, gives the reference verdicts (which HW1Letters reads as
      M M H M M H H M H H M H H, every miss cold) and ends at 13 accesses,
      7 hits and 6 misses, all cold. */
  lemma HW1Run()
    ensures Configure(32, 8, 16, 1, LRU) == Ok(HW1Setup)
    ensures CacheInv(HW1Setup, InitialCache(HW1Setup))
    ensures Agrees(RunTrace(HW1Setup, InitialCache(HW1Setup), HW1Trace, Zeros(|HW1Trace|)).outcomes, HW1Verdicts)
    ensures HW1Totals(RunTrace(HW1Setup, InitialCache(HW1Setup), HW1Trace, Zeros(|HW1Trace|)).final.stats)
  {
    HW1Config();
    HW1Addresses();
    HW1Fixture(HW1Setup, HW1Trace);
  }

  /** A run with no conflict flag counts no conflict miss. */
  lemma {:induction false} NoConflicts(outs: seq<Result<AccessResult>>)
    requires forall k | 0 <= k < |outs| :: outs[k].Ok? ==> !outs[k].value.isConflictMiss
    ensures Conflicts(outs) == 0
    decreases |outs|
  {
    if outs != [] {
      assert forall k | 0 <= k < |outs[1..]| :: outs[1..][k] == outs[k + 1];
      NoConflicts(outs[1..]);
    }
  }

  /** Counting from position k: the letter there, then the rest. */
  lemma OccurrencesFrom(s: string, k: nat, ch: char)
    requires k < |s|
    ensures Occurrences(s[k..], ch) == (if s[k] == ch then 1 else 0) + Occurrences(s[k + 1..], ch)
  {
    assert s[k..][1..] == s[k + 1..];
  }

  /** M M H M M H H M H H M H H has seven H, six M and no other letter. */
  lemma HW1Occurrences(s: string, ch: char)
    requires |s| == 13
    requires s[0] == 'M' && s[1] == 'M' && s[2] == 'H' && s[3] == 'M' && s[4] == 'M' && s[5] == 'H'
    requires s[6] == 'H' && s[7] == 'M' && s[8] == 'H' && s[9] == 'H' && s[10] == 'M' && s[11] == 'H' && s[12] == 'H'
    ensures Occurrences(s, ch) == if ch == 'H' then 7 else if ch == 'M' then 6 else 0
  {
    var h, m := if ch == 'H' then 1 else 0, if ch == 'M' then 1 else 0;
    assert s[13..] == [];
    OccurrencesFrom(s, 12, ch);
    assert Occurrences(s[12..], ch) == 1 * h + 0 * m;
    OccurrencesFrom(s, 11, ch);
    assert Occurrences(s[11..], ch) == 2 * h + 0 * m;
    OccurrencesFrom(s, 10, ch);
    assert Occurrences(s[10..], ch) == 2 * h + 1 * m;
    OccurrencesFrom(s, 9, ch);
    assert Occurrences(s[9..], ch) == 3 * h + 1 * m;
    OccurrencesFrom(s, 8, ch);
    assert Occurrences(s[8..], ch) == 4 * h + 1 * m;
    OccurrencesFrom(s, 7, ch);
    assert Occurrences(s[7..], ch) == 4 * h + 2 * m;
    OccurrencesFrom(s, 6, ch);
    assert Occurrences(s[6..], ch) == 5 * h + 2 * m;
    OccurrencesFrom(s, 5, ch);
    assert Occurrences(s[5..], ch) == 6 * h + 2 * m;
    OccurrencesFrom(s, 4, ch);
    assert Occurrences(s[4..], ch) == 6 * h + 3 * m;
    OccurrencesFrom(s, 3, ch);
    assert Occurrences(s[3..], ch) == 6 * h + 4 * m;
    OccurrencesFrom(s, 2, ch);
    assert Occurrences(s[2..], ch) == 7 * h + 4 * m;
    OccurrencesFrom(s, 1, ch);
    assert Occurrences(s[1..], ch) == 7 * h + 5 * m;
    OccurrencesFrom(s, 0, ch);
    assert Occurrences(s[0..], ch) == 7 * h + 6 * m;
    assert s[0..] == s;
  }

  /** Outcomes agreeing with the reference on the first homework trace count
      seven hits, six misses, no exception and no conflict miss. */
  lemma HW1Counts(outs: seq<Result<AccessResult>>)
    requires Agrees(outs, HW1Verdicts)
    ensures Occurrences(Letters(outs), 'H') == 7 && Occurrences(Letters(outs), 'M') == 6
    ensures Occurrences(Letters(outs), 'E') == 0 && Conflicts(outs) == 0
  {
    HW1VerdictLetters();
    var ls := Letters(outs);
    assert forall k | 0 <= k < 13 :: ls[k] == HW1Verdicts[k].hitMiss;
    HW1Occurrences(ls, 'H');
    HW1Occurrences(ls, 'M');
    HW1Occurrences(ls, 'E');
    NoConflicts(outs);
  }

  /** The counters the first homework fixture ends with. */
  predicate HW1Totals(s: StatsView)
  {
    && s.totalAccesses == 13 && s.hits == 7 && s.misses == 6
    && s.coldMisses == 6 && s.conflictMisses == 0 && s.capacityMisses == 0
    && |s.hitRateHistory| == 13
  }

  /** A run from fresh statistics whose report counts seven hits, six misses,
      no exception and no conflict miss ends with 13 accesses, 7 hits and 6
      misses, all 6 of them cold, and no conflict or capacity miss. */
  lemma HW1StatsFrom(c: Config, v: CacheView, toks: seq<string>, zs: seq<nat>)
    requires CacheInv(c, v) && v.stats == InitialStats()
    requires |zs| == |toks| && forall k | 0 <= k < |zs| :: zs[k] < c.ways
    requires var outs := RunTrace(c, v, toks, zs).outcomes;
      && |outs| == 13 && Conflicts(outs) == 0
      && Occurrences(Letters(outs), 'H') == 7 && Occurrences(Letters(outs), 'M') == 6
      && Occurrences(Letters(outs), 'E') == 0
    ensures HW1Totals(RunTrace(c, v, toks, zs).final.stats)
  {
    RunCounts(c, v, toks, zs);
  }
}
