/** The address decoder: hexadecimal token parsing, the split of an address
    into offset, index and tag, and the set of addresses seen so far. */
module AddressParsing {
  import opened Base

  // ---------------------------------------------------------------------------
  // Hexadecimal tokens (the part of std::stoull(..., 16) the simulator relies on)
  // ---------------------------------------------------------------------------

  predicate IsHexDigit(c: char)
  {
    '0' <= c <= '9' || 'a' <= c <= 'f' || 'A' <= c <= 'F'
  }

  function HexDigitValue(c: char): (v: nat)
    requires IsHexDigit(c)
    ensures v < 16
  {
    if '0' <= c <= '9' then c as nat - '0' as nat
    else if 'a' <= c <= 'f' then c as nat - 'a' as nat + 10
    else c as nat - 'A' as nat + 10
  }

  predicate AllHexDigits(s: string)
  {
    forall i | 0 <= i < |s| :: IsHexDigit(s[i])
  }

  /** The value of a string of hexadecimal digits, most significant first. */
  function HexValue(s: string): nat
    requires AllHexDigits(s)
  {
    if s == [] then 0 else 16 * HexValue(s[..|s| - 1]) + HexDigitValue(s[|s| - 1])
  }

  /** How many hexadecimal digits the string starts with (where stoull stops). */
  function LeadingHexDigits(s: string): (k: nat)
    ensures k <= |s| && AllHexDigits(s[..k])
    ensures k < |s| ==> !IsHexDigit(s[k])
  {
    if s == [] || !IsHexDigit(s[0]) then 0
    else
      var k := 1 + LeadingHexDigits(s[1..]);
      assert s[..k] == [s[0]] + s[1..][..k - 1];
      k
  }

  /** std::string::find: the first position of c in s. */
  function FindChar(s: string, c: char): (r: Option<nat>)
    ensures r.Some? ==> r.value < |s| && s[r.value] == c && c !in s[..r.value]
    ensures r.None? ==> c !in s
  {
    if s == [] then None
    else if s[0] == c then Some(0)
    else match FindChar(s[1..], c)
      case None => None
      case Some(i) =>
        assert s[..i + 1] == [s[0]] + s[1..][..i];
        Some(i + 1)
  }

  /** addrStr.substr(addrStr.find('x') + 1): everything after the first 'x';
      without an 'x', find returns npos and npos + 1 wraps to 0, so the whole token. */
  function AfterFirstX(s: string): string
  {
    match FindChar(s, 'x')
    case Some(i) => s[i + 1..]
    case None => s
  }

  /** The address a token denotes: the hexadecimal digits that follow the first
      'x', as far as they go. No digit there is the invalid_argument of stoull,
      a value past 64 bits its out_of_range. */
  function ParseHexToken(tok: string): (r: Result<nat>)
    ensures r.Ok? ==> r.value < U64
    ensures r.Err? ==> r.error == MalformedAddress || r.error == AddressOutOfRange
    ensures r == Err(MalformedAddress) <==> LeadingHexDigits(AfterFirstX(tok)) == 0
  {
    var rest := AfterFirstX(tok);
    var k := LeadingHexDigits(rest);
    if k == 0 then Err(MalformedAddress)
    else
      var v := HexValue(rest[..k]);
      if v >= U64 then Err(AddressOutOfRange) else Ok(v)
  }

  // ---------------------------------------------------------------------------
  // Geometry and field extraction
  // ---------------------------------------------------------------------------

  /** The decoder's constant configuration. */
  datatype Geometry = Geometry(n: int, offsetBits: nat, indexBits: nat)
  {
    function TagBits(): int
    {
      n - offsetBits - indexBits
    }
  }

  /** The decoder constructor's arithmetic and its validateConfiguration check. */
  function CheckConfiguration(N: int, blockSize: int, numSets: int): (r: Result<Geometry>)
    requires blockSize >= 1 && numSets >= 1
    ensures r.Ok? <==> N - FloorLog2(blockSize) - FloorLog2(numSets) >= 0
    ensures r.Ok? ==> r.value == Geometry(N, FloorLog2(blockSize), FloorLog2(numSets))
    ensures r.Ok? ==> r.value.TagBits() >= 0
    ensures r.Err? ==> r.error == ConfigurationError
  {
    var g := Geometry(N, FloorLog2(blockSize), FloorLog2(numSets));
    if g.TagBits() < 0 then Err(ConfigurationError) else Ok(g)
  }

  datatype Fields = Fields(tag: nat, index: nat, offset: nat)

  /** offset = addr & (2^offsetBits - 1), index = (addr >> offsetBits) & (2^indexBits - 1),
      tag = addr >> (offsetBits + indexBits). The three fields put back in their
      places rebuild the address. */
  function Split(g: Geometry, addr: nat): (f: Fields)
    ensures f.offset < Pow2(g.offsetBits) && f.index < Pow2(g.indexBits)
    ensures Shl(f.tag, g.offsetBits + g.indexBits) + Shl(f.index, g.offsetBits) + f.offset == addr
  {
    var ob, ib := g.offsetBits, g.indexBits;
    var f := Fields(Shr(addr, ob + ib), LowBits(Shr(addr, ob), ib), LowBits(addr, ob));
    ShrLowBits(addr, ob);
    ShrLowBits(Shr(addr, ob), ib);
    ShrShr(addr, ob, ib);
    ShlAdd(Shl(f.tag, ib), f.index, ob);
    ShlShl(f.tag, ib, ob);
    f
  }

  /** The decomposition in the arithmetic form:
      tag * 2^(offsetBits + indexBits) + index * 2^offsetBits + offset == address. */
  lemma SplitExact(g: Geometry, addr: nat)
    ensures var f := Split(g, addr);
      f.tag * Pow2(g.offsetBits + g.indexBits) + f.index * Pow2(g.offsetBits) + f.offset == addr
  {
    var f := Split(g, addr);
    ShlIsMul(f.tag, g.offsetBits + g.indexBits);
    ShlIsMul(f.index, g.offsetBits);
  }

  /** The split is the only one: any tag, index and offset within their widths
      that recombine to the address are the ones Split extracts. */
  lemma SplitUnique(g: Geometry, addr: nat, f: Fields)
    requires f.offset < Pow2(g.offsetBits) && f.index < Pow2(g.indexBits)
    requires Shl(f.tag, g.offsetBits + g.indexBits) + Shl(f.index, g.offsetBits) + f.offset == addr
    ensures Split(g, addr) == f
  {
    var ob, ib := g.offsetBits, g.indexBits;
    var hi := Shl(f.tag, ib) + f.index;
    ShlAdd(Shl(f.tag, ib), f.index, ob);
    ShlShl(f.tag, ib, ob);
    assert addr == Shl(hi, ob) + f.offset;
    ShiftPieces(hi, f.offset, ob);
    ShiftPieces(f.tag, f.index, ib);
    ShrShr(addr, ob, ib);
  }

  // ---------------------------------------------------------------------------
  // Decoding with cold-access detection
  // ---------------------------------------------------------------------------

  datatype ParsedAddress = ParsedAddress(
    tag: nat,
    index: nat,
    offset: nat,
    fullAddress: nat,
    isColdAccess: bool)

  /** parseAddress against the addresses seen so far. */
  function Decode(g: Geometry, seen: set<nat>, tok: string): Result<ParsedAddress>
  {
    match ParseHexToken(tok)
    case Err(e) => Err(e)
    case Ok(addr) =>
      var f := Split(g, addr);
      Ok(ParsedAddress(f.tag, f.index, f.offset, addr, addr !in seen))
  }

  /** The seen-set after parseAddress: a throw happens before the update. */
  function Remember(seen: set<nat>, r: Result<ParsedAddress>): set<nat>
  {
    if r.Ok? then seen + {r.value.fullAddress} else seen
  }

  /** A decoded address carries its fields, and it is cold exactly when its
      value was not seen before; a failed parse leaves the seen-set alone. */
  lemma DecodeMeaning(g: Geometry, seen: set<nat>, tok: string)
    ensures Decode(g, seen, tok).Ok? <==> ParseHexToken(tok).Ok?
    ensures Decode(g, seen, tok).Err? ==> Remember(seen, Decode(g, seen, tok)) == seen
    ensures Decode(g, seen, tok).Ok? ==>
      var p := Decode(g, seen, tok).value;
      && p.fullAddress == ParseHexToken(tok).value
      && Split(g, p.fullAddress) == Fields(p.tag, p.index, p.offset)
      && (p.isColdAccess <==> p.fullAddress !in seen)
      && Remember(seen, Decode(g, seen, tok)) == seen + {p.fullAddress}
  {
  }

  /** Decoding the same token again right afterwards is never cold, and any
      other address keeps the cold status it had. */
  lemma DecodeAgain(g: Geometry, seen: set<nat>, tok: string, other: string)
    requires Decode(g, seen, tok).Ok? && Decode(g, seen, other).Ok?
    ensures !Decode(g, Remember(seen, Decode(g, seen, tok)), tok).value.isColdAccess
    ensures Decode(g, seen, other).value.fullAddress != Decode(g, seen, tok).value.fullAddress ==>
      Decode(g, Remember(seen, Decode(g, seen, tok)), other) == Decode(g, seen, other)
  {
  }

  /** Decoding a whole trace with one decoder, each token against the
      addresses of the tokens before it. */
  function DecodeTrace(g: Geometry, seen: set<nat>, toks: seq<string>): (rs: seq<Result<ParsedAddress>>)
    ensures |rs| == |toks|
    decreases |toks|
  {
    if toks == [] then []
    else
      var r := Decode(g, seen, toks[0]);
      [r] + DecodeTrace(g, Remember(seen, r), toks[1..])
  }

  /** The k-th decoded access of a trace fails exactly when its token is
      malformed, and otherwise carries the token's value. */
  lemma {:induction false} DecodeTraceAddresses(g: Geometry, seen: set<nat>, toks: seq<string>, k: nat)
    requires k < |toks|
    ensures DecodeTrace(g, seen, toks)[k].Ok? <==> ParseHexToken(toks[k]).Ok?
    ensures DecodeTrace(g, seen, toks)[k].Ok? ==>
      DecodeTrace(g, seen, toks)[k].value.fullAddress == ParseHexToken(toks[k]).value
    decreases k
  {
    var r := Decode(g, seen, toks[0]);
    if k > 0 {
      DecodeTraceAddresses(g, Remember(seen, r), toks[1..], k - 1);
      assert toks[1..][k - 1] == toks[k];
    }
  }

  /** Over a trace, a decoded access is cold exactly when no earlier decoded
      access (and nothing seen before the trace) had the same address. */
  lemma {:induction false} ColdIffFirstOccurrence(g: Geometry, seen: set<nat>, toks: seq<string>, k: nat)
    requires k < |toks| && DecodeTrace(g, seen, toks)[k].Ok?
    ensures var rs := DecodeTrace(g, seen, toks);
      var a := rs[k].value.fullAddress;
      rs[k].value.isColdAccess <==>
        a !in seen && forall j | 0 <= j < k && rs[j].Ok? :: rs[j].value.fullAddress != a
    decreases k
  {
    var rs := DecodeTrace(g, seen, toks);
    var r := Decode(g, seen, toks[0]);
    assert rs[0] == r;
    if k > 0 {
      var qs := DecodeTrace(g, Remember(seen, r), toks[1..]);
      assert rs == [r] + qs;
      assert forall j | 1 <= j <= k :: rs[j] == qs[j - 1];
      ColdIffFirstOccurrence(g, Remember(seen, r), toks[1..], k - 1);
      var a := rs[k].value.fullAddress;
      NoEarlierSplit(rs, r, qs, k, a);
      assert a !in Remember(seen, r) <==> a !in seen && (r.Ok? ==> r.value.fullAddress != a);
    } else {
      assert r.Ok? && (r.value.isColdAccess <==> r.value.fullAddress !in seen);
    }
  }

  /** "No decoded access among the first k has address a", split after the first. */
  lemma NoEarlierSplit(rs: seq<Result<ParsedAddress>>, r: Result<ParsedAddress>, qs: seq<Result<ParsedAddress>>, k: nat, a: nat)
    requires rs == [r] + qs && 0 < k <= |qs|
    ensures (forall j | 0 <= j < k && rs[j].Ok? :: rs[j].value.fullAddress != a) <==>
      (r.Ok? ==> r.value.fullAddress != a) &&
      forall j | 0 <= j < k - 1 && qs[j].Ok? :: qs[j].value.fullAddress != a
  {
    if (r.Ok? ==> r.value.fullAddress != a) && forall j | 0 <= j < k - 1 && qs[j].Ok? :: qs[j].value.fullAddress != a {
      forall j | 0 <= j < k && rs[j].Ok?
        ensures rs[j].value.fullAddress != a
      {
        if j > 0 {
          assert rs[j] == qs[j - 1];
        }
      }
    }
    if forall j | 0 <= j < k && rs[j].Ok? :: rs[j].value.fullAddress != a {
      forall j | 0 <= j < k - 1 && qs[j].Ok?
        ensures qs[j].value.fullAddress != a
      {
        assert qs[j] == rs[j + 1];
      }
      assert rs[0] == r;
    }
  }

  // ---------------------------------------------------------------------------
  // The decoder object
  // ---------------------------------------------------------------------------

  class AddressParser {
    const n: int
    const offsetBits: nat
    const indexBits: nat
    const tagBits: int
    var seenAddresses: set<nat>

    function Layout(): Geometry
    {
      Geometry(n, offsetBits, indexBits)
    }

    /** Construction once CheckConfiguration has accepted the sizes (otherwise
        the source's constructor throws before any object exists). */
    constructor(N: int, blockSize: int, numSets: int)
      requires blockSize >= 1 && numSets >= 1
      requires CheckConfiguration(N, blockSize, numSets).Ok?
      ensures Layout() == CheckConfiguration(N, blockSize, numSets).value
      ensures tagBits == N - offsetBits - indexBits && tagBits >= 0
      ensures seenAddresses == {}
    {
      n := N;
      offsetBits := FloorLog2(blockSize);
      indexBits := FloorLog2(numSets);
      tagBits := N - FloorLog2(blockSize) - FloorLog2(numSets);
      seenAddresses := {};
    }

    method ParseAddress(addrStr: string) returns (r: Result<ParsedAddress>)
      modifies this
      ensures r == Decode(Layout(), old(seenAddresses), addrStr)
      ensures seenAddresses == Remember(old(seenAddresses), r)
    {
      var v := ParseHexToken(addrStr);
      if v.Err? {
        return Err(v.error);
      }
      var addr := v.value;
      var f := Split(Layout(), addr);
      var isCold := addr !in seenAddresses;
      seenAddresses := seenAddresses + {addr};
      r := Ok(ParsedAddress(f.tag, f.index, f.offset, addr, isCold));
    }
  }
}
