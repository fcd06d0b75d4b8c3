/** The cache: its configuration, the access step (decode, look up, classify,
    fill on a miss, record), the hexadecimal display of fields, and the cache
    object that owns the decoder, the sets and the statistics. */
module Caches {
  import opened Base
  import opened Policies
  import opened CacheEntry
  import opened AddressParsing
  import opened CacheSets
  import opened Stats

  // ---------------------------------------------------------------------------
  // Configuration
  // ---------------------------------------------------------------------------

  /** The constant shape of a cache: address width, block size, number of
      sets, associativity, policy, and the decoder's field widths. */
  datatype Config = Config(
    n: int,
    blockSize: nat,
    numSets: nat,
    ways: nat,
    policy: ReplacementPolicy,
    layout: Geometry)

  /** A configuration the constructor can produce: power-of-two block size and
      set count whose logarithms are the decoder's widths, and at least one way. */
  predicate WellConfigured(c: Config)
  {
    && c.ways >= 1
    && c.blockSize == Pow2(c.layout.offsetBits)
    && c.numSets == Pow2(c.layout.indexBits)
    && CheckConfiguration(c.n, c.blockSize, c.numSets) == Ok(c.layout)
  }

  /** The split sources' constructor: B and I rounded up to powers of two, the
      decoder built (its tagBits check can throw), then the positivity check. */
  function Configure(N: int, B: int, I: int, ways: int, policy: ReplacementPolicy): (r: Result<Config>)
    requires 1 <= B <= 1024 && 1 <= I <= 1024
    ensures r == Err(ConfigurationError) <==> N - CeilLog2(B) - CeilLog2(I) < 0
    ensures r == Err(NonPositiveParameter) <==> N - CeilLog2(B) - CeilLog2(I) >= 0 && (N <= 0 || ways <= 0)
    ensures r.Ok? ==> && WellConfigured(r.value)
                      && r.value.blockSize == NextPow2(B) && r.value.numSets == NextPow2(I)
                      && r.value.n == N && r.value.ways == ways && r.value.policy == policy
  {
    var bs, ns := NextPow2(B), NextPow2(I);
    FloorLog2OfPow2(CeilLog2(B));
    FloorLog2OfPow2(CeilLog2(I));
    match CheckConfiguration(N, bs, ns)
    case Err(e) => Err(e)
    case Ok(g) =>
      if N <= 0 || bs <= 0 || ns <= 0 || ways <= 0 then Err(NonPositiveParameter)
      else Ok(Config(N, bs, ns, ways, policy, g))
  }

  /** The single-file simulator's constructor: the same rounding and decoder
      check, and no positivity check. */
  function ConfigureSingleFile(N: int, B: int, I: int, ways: int, policy: ReplacementPolicy): (r: Result<Config>)
    requires 1 <= B <= 1024 && 1 <= I <= 1024 && ways >= 1
    ensures r.Err? <==> N - CeilLog2(B) - CeilLog2(I) < 0
    ensures r.Err? ==> r.error == ConfigurationError
    ensures r.Ok? ==> && WellConfigured(r.value)
                      && r.value.blockSize == NextPow2(B) && r.value.numSets == NextPow2(I)
                      && r.value.n == N && r.value.ways == ways && r.value.policy == policy
  {
    var bs, ns := NextPow2(B), NextPow2(I);
    FloorLog2OfPow2(CeilLog2(B));
    FloorLog2OfPow2(CeilLog2(I));
    match CheckConfiguration(N, bs, ns)
    case Err(e) => Err(e)
    case Ok(g) => Ok(Config(N, bs, ns, ways, policy, g))
  }

  /** Block size and set count are the least powers of two at or above B and I. */
  lemma RoundedSizesLeast(N: int, B: int, I: int, ways: int, policy: ReplacementPolicy, k: nat)
    requires 1 <= B <= 1024 && 1 <= I <= 1024
    requires Configure(N, B, I, ways, policy).Ok?
    ensures var c := Configure(N, B, I, ways, policy).value;
      && B <= c.blockSize < 2 * B && I <= c.numSets < 2 * I
      && (B <= Pow2(k) ==> c.blockSize <= Pow2(k))
      && (I <= Pow2(k) ==> c.numSets <= Pow2(k))
  {
    if B <= Pow2(k) {
      NextPow2Least(B, k);
    }
    if I <= Pow2(k) {
      NextPow2Least(I, k);
    }
  }

  /** The two constructors agree on every non-zero address width. At N = 0 the
      split constructor always throws, while the single-file one accepts
      exactly the one-byte, one-set cache. */
  lemma ConfigureVariants(N: int, B: int, I: int, ways: int, policy: ReplacementPolicy)
    requires 1 <= B <= 1024 && 1 <= I <= 1024 && ways >= 1
    ensures N != 0 ==> Configure(N, B, I, ways, policy) == ConfigureSingleFile(N, B, I, ways, policy)
    ensures N == 0 ==> Configure(N, B, I, ways, policy).Err?
    ensures N == 0 ==> (ConfigureSingleFile(N, B, I, ways, policy).Ok? <==> B == 1 && I == 1)
  {
    if N == 0 {
      assert CeilLog2(B) == 0 <==> B == 1;
      assert CeilLog2(I) == 0 <==> I == 1;
    }
  }

  // ---------------------------------------------------------------------------
  // formatHex
  // ---------------------------------------------------------------------------

  predicate IsUpperHexDigit(c: char)
  {
    '0' <= c <= '9' || 'A' <= c <= 'F'
  }

  function UpperHexDigit(d: nat): (c: char)
    requires d < 16
    ensures IsUpperHexDigit(c) && IsHexDigit(c) && HexDigitValue(c) == d
  {
    if d < 10 then ('0' as int + d) as char else ('A' as int + d - 10) as char
  }

  /** std::hex with std::uppercase: the digits of v, most significant first,
      with no leading zero. */
  function UpperHex(v: nat): (s: string)
    ensures |s| >= 1 && AllHexDigits(s) && HexValue(s) == v
    ensures forall i | 0 <= i < |s| :: IsUpperHexDigit(s[i])
    ensures |s| > 1 ==> s[0] != '0'
    decreases v
  {
    if v < 16 then [UpperHexDigit(v)]
    else
      var s := UpperHex(v / 16) + [UpperHexDigit(v % 16)];
      assert s[..|s| - 1] == UpperHex(v / 16);
      s
  }

  /** formatHex: "x" and then the value in upper-case hexadecimal. */
  function FormatHex(v: nat): string
  {
    "x" + UpperHex(v)
  }

  lemma {:induction false} LeadingHexDigitsOfHex(s: string)
    requires AllHexDigits(s)
    ensures LeadingHexDigits(s) == |s|
  {
    if s != [] {
      LeadingHexDigitsOfHex(s[1..]);
    }
  }

  /** Parsing a formatted value gives it back, so formatHex is injective. */
  lemma FormatHexRoundTrip(v: nat)
    requires v < U64
    ensures ParseHexToken(FormatHex(v)) == Ok(v)
  {
    var s := FormatHex(v);
    var ds := UpperHex(v);
    assert FindChar(s, 'x') == Some(0);
    assert AfterFirstX(s) == ds;
    LeadingHexDigitsOfHex(ds);
    assert ds[..|ds|] == ds;
  }

  lemma FormatHexInjective(a: nat, b: nat)
    requires a < U64 && b < U64 && FormatHex(a) == FormatHex(b)
    ensures a == b
  {
    FormatHexRoundTrip(a);
    FormatHexRoundTrip(b);
  }

  // ---------------------------------------------------------------------------
  // The access step
  // ---------------------------------------------------------------------------

  /** Everything an access reads or writes: the decoder's seen addresses, every
      set, and the statistics. */
  datatype CacheView = CacheView(seen: set<nat>, sets: seq<SetView>, stats: StatsView)

  /** What access reports (the binary rendering and the elapsed time aside). */
  datatype AccessResult = AccessResult(
    index: string,
    tag: string,
    hitMiss: char,
    isColdMiss: bool,
    isConflictMiss: bool)

  /** The outcome of one access (a thrown exception is an Err) and the state
      it leaves behind, which an exception does not roll back. */
  datatype Step = Step(outcome: Result<AccessResult>, after: CacheView)

  /** What holds between accesses: one well-formed set per set index, no
      duplicate tags in any set, and consistent statistics. */
  predicate CacheInv(c: Config, v: CacheView)
  {
    && WellConfigured(c)
    && |v.sets| == c.numSets
    && (forall i | 0 <= i < |v.sets| :: WellFormed(v.sets[i], c.policy, c.ways) && DistinctTags(v.sets[i].entries))
    && Consistent(v.stats)
  }

  function InitialStats(): StatsView
  {
    StatsView(0, 0, 0, 0, 0, 0, [], map[], 1, LRU)
  }

  function InitialCache(c: Config): CacheView
    requires c.ways >= 1
  {
    CacheView({}, seq(c.numSets, _ => InitialSet(c.ways, c.blockSize)), InitialStats())
  }

  lemma InitialCacheInv(c: Config)
    requires WellConfigured(c)
    ensures CacheInv(c, InitialCache(c))
  {
    InitialSetWellFormed(c.ways, c.blockSize, c.policy);
  }

  /** recordAccess, then addressFrequency[fullAddress]++. */
  function Counted(s: StatsView, addr: nat, isHit: bool, isCold: bool, isConflict: bool): StatsView
  {
    var r := Recorded(s, isHit, isCold, isConflict);
    r.(addressFrequency := r.addressFrequency[addr := Freq(r.addressFrequency, addr) + 1])
  }

  /** access(addrStr): decode (a parse failure throws before anything changes),
      look the tag up in its set, and on a miss pick a victim (which throws
      for OPTIMAL on a full set, after the address was marked seen) and write
      only its tag and valid bit; then record the access. */
  function AccessSpec(c: Config, v: CacheView, tok: string, choice: nat): Step
    requires CacheInv(c, v) && choice < c.ways
  {
    match Decode(c.layout, v.seen, tok)
    case Err(e) => Step(Err(e), v)
    case Ok(p) => ServeSpec(c, v.(seen := v.seen + {p.fullAddress}), p, choice)
  }

  /** What the addressed set does with a tag: whether it hit, the way that
      now holds the tag (or the victim search's failure), and the set after. */
  datatype Placement = Placement(hit: bool, way: Result<nat>, after: SetView)

  /** The set's part of access: lookup; on a hit the access update, on a miss
      the victim (whose search can fail before anything changes) and then only
      its tag and valid bit written. */
  function Placed(s: SetView, policy: ReplacementPolicy, ways: nat, tag: nat, choice: nat): (pl: Placement)
    requires WellFormed(s, policy, ways) && choice < ways
    ensures pl.hit <==> FindTag(s.entries, tag).Some?
    ensures pl.way.Err? ==> !pl.hit && pl.after == s
  {
    match FindTag(s.entries, tag)
    case Some(w) => Placement(true, Ok(w), Touched(s, policy, w))
    case None =>
      match VictimSpec(s, policy, ways, choice)
      case Err(e) => Placement(false, Err(e), s)
      case Ok(ev) => Placement(false, Ok(ev.way), Installed(s.(fifo := ev.fifo), ev.way, tag))
  }

  /** The rest of access once the address is decoded and marked seen: a hit
      carries neither miss flag, a miss is cold or else a conflict miss. */
  function ServeSpec(c: Config, v: CacheView, p: ParsedAddress, choice: nat): Step
    requires p.index < |v.sets| && WellFormed(v.sets[p.index], c.policy, c.ways) && choice < c.ways
  {
    var pl := Placed(v.sets[p.index], c.policy, c.ways, p.tag, choice);
    if pl.way.Err? then Step(Err(pl.way.error), v)
    else
      var rep := Report(p, pl.hit);
      Step(Ok(rep),
           v.(sets := v.sets[p.index := pl.after],
              stats := Counted(v.stats, p.fullAddress, pl.hit, rep.isColdMiss, rep.isConflictMiss)))
  }

  /** The report of a completed access: index and tag in hex, 'H' or 'M', and
      for a miss exactly one of the cold and conflict flags, as the address is
      or is not new to the trace. */
  function Report(p: ParsedAddress, hit: bool): (rep: AccessResult)
    ensures rep.hitMiss == (if hit then 'H' else 'M')
    ensures rep.isColdMiss <==> !hit && p.isColdAccess
    ensures rep.isConflictMiss <==> !hit && !p.isColdAccess
  {
    AccessResult(FormatHex(p.index), FormatHex(p.tag), if hit then 'H' else 'M',
                 !hit && p.isColdAccess, !hit && !p.isColdAccess)
  }

  /** The decoded index always names a set. */
  lemma IndexInRange(c: Config, v: CacheView, tok: string)
    requires CacheInv(c, v)
    ensures Decode(c.layout, v.seen, tok).Ok? ==> Decode(c.layout, v.seen, tok).value.index < |v.sets|
  {
  }

  /** An access keeps the invariant: sets stay well formed, tags stay
      distinct within each set, and the statistics stay consistent. */
  lemma AccessKeepsInvariant(c: Config, v: CacheView, tok: string, choice: nat)
    requires CacheInv(c, v) && choice < c.ways
    ensures CacheInv(c, AccessSpec(c, v, tok, choice).after)
  {
    var d := Decode(c.layout, v.seen, tok);
    if d.Ok? {
      var p := d.value;
      var s := v.sets[p.index];
      var t := FindTag(s.entries, p.tag);
      var st := v.stats;
      if t.Some? {
        TouchedEffect(s, c.policy, c.ways, t.value);
        RecordedEffect(st, true, false, false);
      } else if VictimSpec(s, c.policy, c.ways, choice).Ok? {
        MissPathEffect(s, c.policy, c.ways, choice, p.tag);
        RecordedEffect(st, false, p.isColdAccess, !p.isColdAccess);
      }
    }
  }

  /** How an access is classified: a parse failure changes nothing; a hit
      carries neither miss flag; a miss carries exactly one, cold exactly when
      the address was never seen before; the only other failure is OPTIMAL
      meeting a full set; the fields are shown through formatHex. */
  lemma AccessClassification(c: Config, v: CacheView, tok: string, choice: nat)
    requires CacheInv(c, v) && choice < c.ways
    ensures var st := AccessSpec(c, v, tok, choice);
      var d := Decode(c.layout, v.seen, tok);
      && (d.Err? ==> st.outcome == Err(d.error) && st.after == v)
      && (d.Ok? ==>
            var p := d.value;
            var hit := FindTag(v.sets[p.index].entries, p.tag).Some?;
            var full := forall j | 0 <= j < c.ways :: v.sets[p.index].entries[j].valid;
            && st.after.seen == v.seen + {p.fullAddress}
            && (st.outcome.Err? <==> !hit && full && c.policy == OPTIMAL)
            && (st.outcome.Err? ==> st.outcome.error == UnknownPolicy && st.after == v.(seen := st.after.seen))
            && (st.outcome.Ok? ==>
                  var r := st.outcome.value;
                  && r.index == FormatHex(p.index) && r.tag == FormatHex(p.tag)
                  && (r.hitMiss == 'H' <==> hit) && (r.hitMiss == 'M' <==> !hit)
                  && (hit ==> !r.isColdMiss && !r.isConflictMiss)
                  && (!hit ==> (r.isColdMiss <==> !r.isConflictMiss))
                  && (!hit ==> (r.isColdMiss <==> p.fullAddress !in v.seen))))
  {
    var d := Decode(c.layout, v.seen, tok);
    if d.Ok? {
      var p := d.value;
      VictimMeaning(v.sets[p.index], c.policy, c.ways, choice);
    }
  }

  /** On a hit or a completed miss the set holds a valid line with the tag, and
      on a miss exactly one line changed, and only in its tag and valid bit. */
  lemma PlacedEffect(s: SetView, policy: ReplacementPolicy, ways: nat, tag: nat, choice: nat)
    requires WellFormed(s, policy, ways) && choice < ways
    requires Placed(s, policy, ways, tag, choice).way.Ok?
    ensures var pl := Placed(s, policy, ways, tag, choice);
      && FindTag(pl.after.entries, tag).Some?
      && (!pl.hit ==>
            exists w | 0 <= w < ways ::
              && pl.after.entries[w] == s.entries[w].(tag := tag, valid := true)
              && forall i | 0 <= i < ways && i != w :: pl.after.entries[i] == s.entries[i])
  {
    var t := FindTag(s.entries, tag);
    if t.Some? {
      TouchedEffect(s, policy, ways, t.value);
      assert Holds(Touched(s, policy, t.value).entries[t.value], tag);
    } else {
      MissPathEffect(s, policy, ways, choice, tag);
      var ev := VictimSpec(s, policy, ways, choice).value;
      assert Holds(Installed(s.(fifo := ev.fifo), ev.way, tag).entries[ev.way], tag);
    }
  }

  /** Where an access leaves its line: the addressed set then holds a valid line
      with the tag, every other set is as before, and on a miss exactly one
      line changed, and only in its tag and valid bit. */
  lemma AccessPlacement(c: Config, v: CacheView, tok: string, choice: nat)
    requires CacheInv(c, v) && choice < c.ways
    requires AccessSpec(c, v, tok, choice).outcome.Ok?
    ensures var st := AccessSpec(c, v, tok, choice);
      var p := Decode(c.layout, v.seen, tok).value;
      var old_e := v.sets[p.index].entries;
      var new_e := st.after.sets[p.index].entries;
      && |st.after.sets| == |v.sets|
      && FindTag(new_e, p.tag).Some?
      && (forall j | 0 <= j < |v.sets| && j != p.index :: st.after.sets[j] == v.sets[j])
      && (st.outcome.value.hitMiss == 'M' ==>
            exists w | 0 <= w < c.ways ::
              && new_e[w] == old_e[w].(tag := p.tag, valid := true)
              && forall i | 0 <= i < c.ways && i != w :: new_e[i] == old_e[i])
  {
    var p := Decode(c.layout, v.seen, tok).value;
    IndexInRange(c, v, tok);
    var s := v.sets[p.index];
    var pl := Placed(s, c.policy, c.ways, p.tag, choice);
    var st := AccessSpec(c, v, tok, choice);
    assert st == ServeSpec(c, v.(seen := v.seen + {p.fullAddress}), p, choice);
    assert pl.way.Ok? && st.after.sets == v.sets[p.index := pl.after];
    assert st.outcome.value.hitMiss == 'M' <==> !pl.hit;
    PlacedEffect(s, c.policy, c.ways, p.tag, choice);
  }

  /** Every completed access is counted once: one more access, one more use of
      the address, and never a capacity miss. */
  lemma AccessCounting(c: Config, v: CacheView, tok: string, choice: nat)
    requires CacheInv(c, v) && choice < c.ways
    requires AccessSpec(c, v, tok, choice).outcome.Ok?
    ensures var after := AccessSpec(c, v, tok, choice).after.stats;
      var addr := Decode(c.layout, v.seen, tok).value.fullAddress;
      && after.totalAccesses == v.stats.totalAccesses + 1
      && Freq(after.addressFrequency, addr) == Freq(v.stats.addressFrequency, addr) + 1
      && (forall a | a != addr :: Freq(after.addressFrequency, a) == Freq(v.stats.addressFrequency, a))
      && after.capacityMisses == v.stats.capacityMisses
      && |after.hitRateHistory| == after.totalAccesses
  {
  }

  // ---------------------------------------------------------------------------
  // The cache object
  // ---------------------------------------------------------------------------

  function SetViews(ss: seq<CacheSet>): (vs: seq<SetView>)
    reads ss
    ensures |vs| == |ss| && forall i | 0 <= i < |ss| :: vs[i] == ss[i].View()
    decreases |ss|
  {
    if ss == [] then [] else SetViews(ss[..|ss| - 1]) + [ss[|ss| - 1].View()]
  }

  /** A row of set views that differs from another only at i is the other
      with position i replaced. */
  lemma ViewsUpdate(a: seq<SetView>, b: seq<SetView>, i: nat)
    requires |a| == |b| && i < |a|
    requires forall k | 0 <= k < |a| && k != i :: a[k] == b[k]
    ensures a == b[i := a[i]]
  {
  }

  /** Sets each in the initial state show the initial cache's sets. */
  lemma InitialViews(c: Config, built: seq<CacheSet>)
    requires c.ways >= 1
    requires |built| == c.numSets
    requires forall k | 0 <= k < |built| :: built[k].View() == InitialSet(c.ways, c.blockSize)
    ensures SetViews(built) == InitialCache(c).sets
  {
  }

  /** The constructor's loop: one freshly built set per set index. */
  method BuildSets(c: Config) returns (built: seq<CacheSet>)
    requires WellConfigured(c)
    ensures |built| == c.numSets
    ensures forall k | 0 <= k < |built| :: fresh(built[k])
    ensures forall k, m | 0 <= k < |built| && 0 <= m < |built| && k != m :: built[k] != built[m]
    ensures forall k | 0 <= k < |built| :: built[k].ways == c.ways && built[k].policy == c.policy
    ensures forall k | 0 <= k < |built| :: built[k].View() == InitialSet(c.ways, c.blockSize)
  {
    built := [];
    var i := 0;
    while i < c.numSets
      invariant 0 <= i <= c.numSets && |built| == i
      invariant forall k | 0 <= k < i :: fresh(built[k])
      invariant forall k, m | 0 <= k < i && 0 <= m < i && k != m :: built[k] != built[m]
      invariant forall k | 0 <= k < i :: built[k].ways == c.ways && built[k].policy == c.policy
      invariant forall k | 0 <= k < i :: built[k].View() == InitialSet(c.ways, c.blockSize)
    {
      var s := new CacheSet(c.ways, c.blockSize, c.policy);
      built := built + [s];
      i := i + 1;
    }
  }

  class Cache {
    const config: Config
    const parser: AddressParser
    const stats: CacheStats
    const sets: seq<CacheSet>

    function View(): CacheView
      reads this, parser, stats, sets
    {
      CacheView(parser.seenAddresses, SetViews(sets), stats.View())
    }

    /** No set object appears twice. */
    ghost predicate Apart()
      reads this
    {
      forall i, j | 0 <= i < |sets| && 0 <= j < |sets| && i != j :: sets[i] != sets[j]
    }

    ghost predicate Valid()
      reads this, parser, stats, sets
    {
      && |sets| == config.numSets
      && parser.Layout() == config.layout
      && Apart()
      && (forall i | 0 <= i < |sets| :: sets[i].ways == config.ways && sets[i].policy == config.policy)
      && CacheInv(config, View())
    }

    /** The assembled object: the decoder, the statistics record and one set per
        set index, each in the state the source's constructor leaves it in. */
    constructor(c: Config, p: AddressParser, s: CacheStats, built: seq<CacheSet>)
      requires WellConfigured(c)
      requires p.Layout() == c.layout && p.seenAddresses == {}
      requires s.View() == InitialStats()
      requires |built| == c.numSets
      requires forall k, m | 0 <= k < |built| && 0 <= m < |built| && k != m :: built[k] != built[m]
      requires forall k | 0 <= k < |built| :: built[k].ways == c.ways && built[k].policy == c.policy
      requires forall k | 0 <= k < |built| :: built[k].View() == InitialSet(c.ways, c.blockSize)
      ensures config == c && parser == p && stats == s && sets == built
      ensures Valid() && View() == InitialCache(c)
    {
      InitialCacheInv(c);
      InitialViews(c, built);
      ghost var sv := SetViews(built);
      config := c;
      parser := p;
      stats := s;
      sets := built;
      new;
      assert unchanged(built);
      assert SetViews(built) == sv;
      assert stats.View() == InitialStats();
      assert parser.seenAddresses == {};
      assert View() == InitialCache(c);
    }

    /** access(addrStr). The draw of RANDOM comes in as `choice`. */
    method Access(addrStr: string, choice: nat) returns (r: Result<AccessResult>)
      requires Valid() && choice < config.ways
      modifies parser, stats, sets
      ensures Valid()
      ensures r == AccessSpec(config, old(View()), addrStr, choice).outcome
      ensures View() == AccessSpec(config, old(View()), addrStr, choice).after
    {
      ghost var v := View();
      var parsed := parser.ParseAddress(addrStr);
      if parsed.Err? {
        assert View() == v;
        return Err(parsed.error);
      }
      var p := parsed.value;
      assert p.index < |sets| by {
        IndexInRange(config, v, addrStr);
      }
      assert forall k | 0 <= k < |sets| :: sets[k].View() == v.sets[k];
      assert SetViews(sets) == v.sets;
      assert stats.View() == v.stats;
      assert WellFormed(sets[p.index].View(), config.policy, config.ways);
      r := Serve(p, choice);
      assert CacheInv(config, View()) by {
        AccessKeepsInvariant(config, v, addrStr, choice);
      }
    }

    /** The set's and the statistics' part of access, after the decoder. */
    method Serve(p: ParsedAddress, choice: nat) returns (r: Result<AccessResult>)
      requires choice < config.ways && p.index < |sets| && Apart()
      requires sets[p.index].ways == config.ways && sets[p.index].policy == config.policy
      requires WellFormed(sets[p.index].View(), config.policy, config.ways)
      modifies stats, sets
      ensures r == ServeSpec(config, old(View()), p, choice).outcome
      ensures View() == ServeSpec(config, old(View()), p, choice).after
    {
      ghost var v := View();
      ghost var pl := Placed(v.sets[p.index], config.policy, config.ways, p.tag, choice);
      var hit, placed := PlaceAt(p.index, p.tag, choice);

      if placed.Err? {
        assert View() == v;
        return Err(placed.error);
      }
      var rep := Report(p, hit);
      Tally(p.fullAddress, hit, rep.isColdMiss, rep.isConflictMiss);
      r := Ok(rep);
    }

    /** Count the access; the sets are untouched. */
    method Tally(addr: nat, isHit: bool, isCold: bool, isConflict: bool)
      modifies stats
      ensures SetViews(sets) == old(SetViews(sets))
      ensures stats.View() == Counted(old(stats.View()), addr, isHit, isCold, isConflict)
    {
      label Before:
      Count(stats, addr, isHit, isCold, isConflict);
      assert forall k | 0 <= k < |sets| :: unchanged@Before(sets[k]);
    }

    /** Place in the i-th set; the other sets are untouched. */
    method PlaceAt(i: nat, tag: nat, choice: nat) returns (hit: bool, r: Result<nat>)
      requires choice < config.ways && i < |sets| && Apart()
      requires sets[i].ways == config.ways && sets[i].policy == config.policy
      requires WellFormed(sets[i].View(), config.policy, config.ways)
      modifies sets
      ensures var pl := Placed(old(View()).sets[i], config.policy, config.ways, tag, choice);
        hit == pl.hit && r == pl.way && SetViews(sets) == old(View()).sets[i := pl.after]
    {
      ghost var v := View();
      var target := sets[i];
      assert target.View() == v.sets[i];
      hit, r := Place(target, tag, choice);
      assert forall k | 0 <= k < |sets| && k != i :: sets[k].View() == v.sets[k];
      ViewsUpdate(SetViews(sets), v.sets, i);
    }
  }

  /** recordAccess, then the per-address count. */
  method Count(stats: CacheStats, addr: nat, isHit: bool, isCold: bool, isConflict: bool)
    modifies stats
    ensures stats.View() == Counted(old(stats.View()), addr, isHit, isCold, isConflict)
  {
    stats.RecordAccess(isHit, isCold, isConflict);
    var af := stats.addressFrequency;
    stats.addressFrequency := af[addr := Freq(af, addr) + 1];
  }

  /** The set's part of access: lookup, and on a miss the victim search and the
      line write. */
  method Place(target: CacheSet, tag: nat, choice: nat) returns (hit: bool, r: Result<nat>)
    requires target.Valid() && choice < target.ways
    modifies target
    ensures var pl := Placed(old(target.View()), target.policy, target.ways, tag, choice);
      hit == pl.hit && r == pl.way && target.View() == pl.after
  {
    var wayIndex;
    hit, wayIndex := target.Lookup(tag);
    if hit {
      return true, Ok(wayIndex);
    }
    r := target.FindVictim(tag, choice);
    if r.Ok? {
      var e := target.entries;
      target.entries := e[r.value := e[r.value].(tag := tag, valid := true)];
    }
  }

  /** The constructor's body once the configuration is accepted: one freshly
      built set per set index, then the object over them. */
  method Build(c: Config) returns (cache: Cache)
    requires WellConfigured(c)
    ensures fresh(cache)
    ensures cache.config == c && cache.Valid() && cache.View() == InitialCache(c)
  {
    var built := BuildSets(c);
    cache := Assemble(c, built);
  }

  /** The decoder and the statistics record, then the new object over them and
      the sets. */
  method Assemble(c: Config, built: seq<CacheSet>) returns (cache: Cache)
    requires WellConfigured(c)
    requires |built| == c.numSets
    requires forall k, m | 0 <= k < |built| && 0 <= m < |built| && k != m :: built[k] != built[m]
    requires forall k | 0 <= k < |built| :: built[k].ways == c.ways && built[k].policy == c.policy
    requires forall k | 0 <= k < |built| :: built[k].View() == InitialSet(c.ways, c.blockSize)
    ensures fresh(cache) && fresh(cache.parser) && fresh(cache.stats) && cache.sets == built
    ensures cache.config == c && cache.Valid() && cache.View() == InitialCache(c)
  {
    var parser := new AddressParser(c.n, c.blockSize, c.numSets);
    var stats := new CacheStats();
    assert unchanged(built);
    cache := new Cache(c, parser, stats, built);
  }

  /** Building a cache from the command-line sizes: the constructor's
      exceptions as errors, otherwise a fresh empty cache. */
  method NewCache(N: int, B: int, I: int, ways: int, policy: ReplacementPolicy) returns (r: Result<Cache>)
    requires 1 <= B <= 1024 && 1 <= I <= 1024
    ensures r.Err? <==> Configure(N, B, I, ways, policy).Err?
    ensures r.Err? ==> r.error == Configure(N, B, I, ways, policy).error
    ensures r.Ok? ==> && r.value.config == Configure(N, B, I, ways, policy).value
                      && r.value.Valid()
                      && r.value.View() == InitialCache(r.value.config)
  {
    var c := Configure(N, B, I, ways, policy);
    if c.Err? {
      return Err(c.error);
    }
    var cache := Build(c.value);
    r := Ok(cache);
  }
}
