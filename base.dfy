/** Shared vocabulary: error results, powers of two and the integer logarithms
    that replace the floating-point log2/pow/ceil calls of the simulator. */
module Base {

  datatype Option<T> = None | Some(value: T)

  /** Every exception the simulator core can raise. */
  datatype Error =
    | ConfigurationError          // "address bits insufficient": tagBits < 0
    | NonPositiveParameter        // "Cache parameters must be positive"
    | MalformedAddress            // std::stoull finds no hexadecimal digit
    | AddressOutOfRange           // std::stoull overflows 64 bits
    | UnknownPolicy               // findVictim reaches its default branch
    | InvalidAddressFormat(line: string)  // a trace line not starting with 'x'

  datatype Result<T> = Ok(value: T) | Err(error: Error)

  /** 2^64: one more than the largest uint64_t / size_t value. */
  const U64: nat := 0x1_0000_0000_0000_0000

  /** std::numeric_limits<size_t>::max() */
  const SizeMax: nat := U64 - 1

  function Pow2(k: nat): (r: nat)
    ensures r >= 1
  {
    if k == 0 then 1 else 2 * Pow2(k - 1)
  }

  lemma {:induction false} Pow2Monotonic(a: nat, b: nat)
    requires a <= b
    ensures Pow2(a) <= Pow2(b)
  {
    if a < b {
      Pow2Monotonic(a, b - 1);
    }
  }

  /** floor(log2(x)): what static_cast<int>(std::log2(x)) yields for a positive int. */
  function FloorLog2(x: nat): (r: nat)
    requires x >= 1
    ensures Pow2(r) <= x < 2 * Pow2(r)
  {
    if x == 1 then 0 else 1 + FloorLog2(x / 2)
  }

  /** ceil(log2(x)): the exponent of the smallest power of two that is at least x. */
  function CeilLog2(x: nat): (r: nat)
    requires x >= 1
    ensures x <= Pow2(r)
    ensures r > 0 ==> Pow2(r - 1) < x
  {
    if x == 1 then 0 else 1 + CeilLog2((x + 1) / 2)
  }

  /** 2^ceil(log2(x)), the value std::pow(2, std::ceil(std::log2(x))) computes. */
  function NextPow2(x: nat): (r: nat)
    requires x >= 1
    ensures x <= r < 2 * x
    ensures r == Pow2(CeilLog2(x))
  {
    var k := CeilLog2(x);
    assert k > 0 ==> Pow2(k) == 2 * Pow2(k - 1);
    Pow2(k)
  }

  /** NextPow2 is the least power of two that is at least x. */
  lemma NextPow2Least(x: nat, k: nat)
    requires x >= 1 && x <= Pow2(k)
    ensures NextPow2(x) <= Pow2(k)
  {
    var c := CeilLog2(x);
    if k < c {
      Pow2Monotonic(k, c - 1);
    } else {
      Pow2Monotonic(c, k);
    }
  }

  lemma {:induction false} FloorLog2OfPow2(k: nat)
    ensures FloorLog2(Pow2(k)) == k
  {
    if k > 0 {
      FloorLog2OfPow2(k - 1);
      assert Pow2(k) / 2 == Pow2(k - 1);
    }
  }

  lemma {:induction false} CeilLog2OfPow2(k: nat)
    ensures CeilLog2(Pow2(k)) == k
  {
    if k > 0 {
      CeilLog2OfPow2(k - 1);
      assert (Pow2(k) + 1) / 2 == Pow2(k - 1);
    }
  }

  lemma Pow2StrictlyMonotonic(a: nat, b: nat)
    requires a < b
    ensures Pow2(a) < Pow2(b)
  {
    Pow2Monotonic(a + 1, b);
  }

  /** a >> k on unbounded naturals: k halvings. */
  function Shr(a: nat, k: nat): nat
  {
    if k == 0 then a else Shr(a / 2, k - 1)
  }

  /** a & (2^k - 1): the k low-order bits of a. */
  function LowBits(a: nat, k: nat): (r: nat)
    ensures r < Pow2(k)
  {
    if k == 0 then 0 else a % 2 + 2 * LowBits(a / 2, k - 1)
  }

  /** Shifting right by i and then by j is shifting by i + j. */
  lemma {:induction false} ShrShr(a: nat, i: nat, j: nat)
    ensures Shr(Shr(a, i), j) == Shr(a, i + j)
  {
    if i > 0 {
      ShrShr(a / 2, i - 1, j);
    }
  }

  /** x << k on unbounded naturals: k doublings. */
  function Shl(x: nat, k: nat): nat
  {
    if k == 0 then x else 2 * Shl(x, k - 1)
  }

  lemma {:induction false} ShlShl(x: nat, i: nat, j: nat)
    ensures Shl(Shl(x, i), j) == Shl(x, i + j)
  {
    if j > 0 {
      ShlShl(x, i, j - 1);
    }
  }

  lemma {:induction false} ShlAdd(x: nat, y: nat, k: nat)
    ensures Shl(x + y, k) == Shl(x, k) + Shl(y, k)
  {
    if k > 0 {
      ShlAdd(x, y, k - 1);
    }
  }

  /** A left shift multiplies by a power of two. */
  lemma {:induction false} ShlIsMul(x: nat, k: nat)
    ensures Shl(x, k) == x * Pow2(k)
  {
    if k > 0 {
      ShlIsMul(x, k - 1);
      assert x * Pow2(k) == 2 * (x * Pow2(k - 1));
    }
  }

  /** The high part and the low part of a number put together give it back. */
  lemma {:induction false} ShrLowBits(a: nat, k: nat)
    ensures a == Shl(Shr(a, k), k) + LowBits(a, k)
  {
    if k > 0 {
      ShrLowBits(a / 2, k - 1);
    }
  }

  /** Shifting out the low k bits of (x << k) + o, with o < 2^k, leaves x and o. */
  lemma {:induction false} ShiftPieces(x: nat, o: nat, k: nat)
    requires o < Pow2(k)
    ensures Shr(Shl(x, k) + o, k) == x && LowBits(Shl(x, k) + o, k) == o
  {
    if k > 0 {
      var a := Shl(x, k) + o;
      assert a / 2 == Shl(x, k - 1) + o / 2 && a % 2 == o % 2;
      ShiftPieces(x, o / 2, k - 1);
    }
  }

  /** A number below 2^(k+m) has its top part, above bit k, below 2^m. */
  lemma {:induction false} ShrBound(a: nat, k: nat, m: nat)
    requires a < Pow2(k + m)
    ensures Shr(a, k) < Pow2(m)
  {
    if k > 0 {
      assert Pow2(k + m) == 2 * Pow2(k - 1 + m);
      ShrBound(a / 2, k - 1, m);
    }
  }

  /** A number below 2^k has nothing above bit k. */
  lemma ShrOfSmall(a: nat, k: nat)
    requires a < Pow2(k)
    ensures Shr(a, k) == 0
  {
    ShrBound(a, k, 0);
  }
}
