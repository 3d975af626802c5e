/**
 Address ranges of `src/network/ipcalc.c`.  An IPv4 address is its 32-bit number in host order, an IPv6 address its sixteen
 bytes; the bitwise operators are written out on numbers.
 */
module IpRange {
  import opened Powers

  // ----- Bits of numbers

  function BitAnd(a: nat, b: nat): nat {
    if a == 0 || b == 0 then 0 else 2 * BitAnd(a / 2, b / 2) + if a % 2 == 1 && b % 2 == 1 then 1 else 0
  }

  function BitOr(a: nat, b: nat): nat {
    if a == 0 then b else if b == 0 then a else 2 * BitOr(a / 2, b / 2) + if a % 2 == 1 || b % 2 == 1 then 1 else 0
  }

  lemma Double(m: nat)
    requires m > 0
    ensures Pow2(m) == 2 * Pow2(m - 1) && (Pow2(m) - 1) / 2 == Pow2(m - 1) - 1 && (Pow2(m) - 1) % 2 == 1
  {}

  function ShiftRight(a: nat, k: nat): nat
    decreases k
  {
    if k == 0 then a else ShiftRight(a / 2, k - 1)
  }

  lemma {:induction false} ShiftOnes(m: nat, k: nat)
    requires k <= m
    ensures ShiftRight(Pow2(m) - 1, k) == Pow2(m - k) - 1
    decreases k
  {
    hide Pow2;
    if k > 0 {
      Double(m);
      ShiftOnes(m - 1, k - 1);
    }
  }

  /** A shift to the left in a word of the given size drops what leaves the word. */
  function ShiftLeft(a: nat, k: nat, word: nat): nat
    requires word > 0
  {
    a * Pow2(k) % word
  }

  /** A number with its lowest `k` bits cleared. */
  function Floor(x: nat, k: nat): nat
    decreases k
  {
    if k == 0 then x else 2 * Floor(x / 2, k - 1)
  }

  /** Clearing bits sorts the numbers into blocks of `Pow2(k)` neighbours. */
  lemma {:induction false} FloorBlock(x: nat, y: nat, k: nat)
    ensures Floor(y, k) == Floor(x, k) <==> Floor(x, k) <= y < Floor(x, k) + Pow2(k)
    decreases k
  {
    if k > 0 {
      FloorBlock(x / 2, y / 2, k - 1);
    }
  }

  lemma {:induction false} FloorOfSmall(x: nat, k: nat)
    requires x < Pow2(k)
    ensures Floor(x, k) == 0
    decreases k
  {
    if k > 0 {
      FloorOfSmall(x / 2, k - 1);
    }
  }

  lemma {:induction false} AndOnes(x: nat, m: nat)
    requires x < Pow2(m)
    ensures BitAnd(x, Pow2(m) - 1) == x
    decreases m
  {
    hide Pow2;
    if m == 0 {
      Doubles(0);
    } else if x > 0 {
      Double(m);
      AndOnes(x / 2, m - 1);
    }
  }

  /** A mask of ones above `k` zeros clears the lowest `k` bits. */
  lemma {:induction false} AndHighMask(x: nat, m: nat, k: nat)
    requires k <= m && x < Pow2(m)
    ensures Pow2(k) <= Pow2(m) && BitAnd(x, Pow2(m) - Pow2(k)) == Floor(x, k)
    decreases k
  {
    hide Pow2;
    Pow2Monotone(k, m);
    if k == 0 {
      Doubles(0);
      AndOnes(x, m);
    } else {
      Double(m);
      Double(k);
      AndHighMask(x / 2, m - 1, k - 1);
      if x == 0 || Pow2(m) == Pow2(k) {
        FloorOfSmall(x, k);
      }
    }
  }

  /** A mask of `k` ones fills cleared bits. */
  lemma {:induction false} OrLowMask(x: nat, k: nat)
    ensures BitOr(Floor(x, k), Pow2(k) - 1) == Floor(x, k) + Pow2(k) - 1
    decreases k
  {
    hide Pow2;
    if k == 0 {
      Doubles(0);
    } else {
      Double(k);
      OrLowMask(x / 2, k - 1);
    }
  }

  // ----- IPv4

  const WORD: nat := 0x1_0000_0000
  const HALF: nat := 0x8000_0000

  lemma PowersOfWord()
    ensures Pow2(8) == 256 && Pow2(32) == WORD && Pow2(31) == HALF
  {
    assert Pow2(4) == 16;
    Pow2Sum(4, 4);
    Pow2Sum(8, 8);
    Pow2Sum(16, 16);
  }

  /** The difference of two addresses as the signed number it is stored in. */
  function Compare4(a: nat, b: nat): int
    requires a < WORD && b < WORD
  {
    var d := (a - b) % WORD;
    if d < HALF then d else d - WORD
  }

  predicate InRange4(x: nat, lo: nat, hi: nat)
    requires x < WORD && lo < WORD && hi < WORD
  {
    Compare4(lo, x) <= 0 && Compare4(x, hi) <= 0
  }

  /** The test in terms of the distances from the ends, going up around the circle of addresses. */
  lemma InRange4Means(x: nat, lo: nat, hi: nat)
    requires x < WORD && lo < WORD && hi < WORD
    ensures InRange4(x, lo, hi) <==> (x - lo) % WORD <= HALF && (hi - x) % WORD <= HALF
  {}

  /**
   The test is right about an address in a proper range exactly when no end is more than half the circle away from a member, and
   about any other address unless the range is a single address half way around.  For ends in the wrong order it is wrong about the
   addresses that lie on the way up from the first to the last, around the end of the circle, at most half of it from either.
   */
  lemma InRange4At(x: nat, lo: nat, hi: nat)
    requires x < WORD && lo < WORD && hi < WORD
    ensures InRange4(x, lo, hi) == (lo <= x <= hi)
       <==> (if lo <= x <= hi then x - lo <= HALF && hi - x <= HALF
             else if lo <= hi then !(lo == hi && (x - lo) % WORD == HALF)
             else !((hi - lo) % WORD - HALF <= (x - lo) % WORD <= (hi - lo) % WORD && (x - lo) % WORD <= HALF))
  {
    hide InRange4, Compare4;
    InRange4Means(x, lo, hi);
  }

  /** The test is right for every address exactly when the last address is between 1 and 2^31 above the first. */
  lemma InRange4IsExact(lo: nat, hi: nat)
    requires lo < WORD && hi < WORD
    ensures (forall x: nat :: x < WORD ==> InRange4(x, lo, hi) == (lo <= x <= hi)) <==> 1 <= hi - lo <= HALF
  {
    forall x: nat | x < WORD && 1 <= hi - lo <= HALF ensures InRange4(x, lo, hi) == (lo <= x <= hi) {
      InRange4At(x, lo, hi);
    }
    if !(1 <= hi - lo <= HALF) {
      var x := Misjudged(lo, hi);
      assert InRange4(x, lo, hi) != (lo <= x <= hi);
    }
  }

  /** An address the test is wrong about: the opposite one, the first one, or one on the way around. */
  lemma Misjudged(lo: nat, hi: nat) returns (x: nat)
    requires lo < WORD && hi < WORD && !(1 <= hi - lo <= HALF)
    ensures x < WORD && InRange4(x, lo, hi) != (lo <= x <= hi)
  {
    hide InRange4;
    if lo == hi {
      x := (lo + HALF) % WORD;
    } else if lo < hi {
      x := lo;
    } else {
      var w := (hi - lo) % WORD;
      x := (lo + if w < HALF then w else HALF) % WORD;
    }
    InRange4At(x, lo, hi);
  }

  /**
   A single address lets in the address half way around; the range of all addresses keeps out its own first address; and a range
   with its ends in the wrong order, 10.0.0.5 to 10.0.0.1, lets in 138.0.0.1.
   */
  lemma InRange4Fails()
    ensures InRange4(0x8A00_0001, 0x0A00_0001, 0x0A00_0001)
    ensures !InRange4(0, 0, 0xFFFF_FFFF)
    ensures InRange4(0x8A00_0001, 0x0A00_0005, 0x0A00_0001)
  {
    InRange4Means(0x8A00_0001, 0x0A00_0001, 0x0A00_0001);
    InRange4Means(0, 0, 0xFFFF_FFFF);
    InRange4Means(0x8A00_0001, 0x0A00_0005, 0x0A00_0001);
  }

  /** The left mask: the shift drops what leaves the word. */
  function LeftMask4(bits: int): (mask: nat) {
    if bits <= 0 then 0 else if bits >= 32 then WORD - 1 else ShiftLeft(WORD - 1, 32 - bits, WORD)
  }

  function RightMask4(bits: int): (mask: nat) {
    if bits <= 0 then 0 else if bits >= 32 then WORD - 1 else ShiftRight(WORD - 1, 32 - bits)
  }

  lemma LeftMask4IsHigh(bits: nat)
    requires bits <= 32
    ensures Pow2(32 - bits) <= WORD && LeftMask4(bits) == WORD - Pow2(32 - bits)
  {
    hide Pow2;
    Doubles(0);
    PowersOfWord();
    Pow2Monotone(32 - bits, 32);
    var p := Pow2(32 - bits);
    if 0 < bits < 32 {
      assert (WORD - 1) * p == WORD * (p - 1) + (WORD - p);
    }
  }

  lemma RightMask4IsLow(bits: nat)
    requires bits <= 32
    ensures RightMask4(bits) == Pow2(bits) - 1
  {
    hide Pow2, ShiftRight;
    PowersOfWord();
    if bits == 0 {
      Doubles(0);
    } else if bits < 32 {
      ShiftOnes(32, 32 - bits);
    }
  }

  lemma {:induction false} FloorFits(x: nat, m: nat, k: nat)
    requires k <= m && x < Pow2(m)
    ensures Floor(x, k) + Pow2(k) <= Pow2(m)
    decreases k
  {
    if k > 0 {
      FloorFits(x / 2, m - 1, k - 1);
    }
  }

  function Clamp(bits: int, max: nat): nat {
    if bits < 0 then 0 else if bits > max then max else bits
  }

  /** The lowest address of a prefix. */
  function Lowest4(addr: nat, bits: int): nat {
    BitAnd(addr, LeftMask4(Clamp(bits, 32)))
  }

  /** The highest address of a prefix. */
  function Highest4(addr: nat, bits: int): nat {
    BitOr(Lowest4(addr, bits), RightMask4(32 - Clamp(bits, 32)))
  }

  lemma Mask4(x: nat, bits: nat)
    requires x < WORD && bits <= 32
    ensures BitAnd(x, LeftMask4(bits)) == Floor(x, 32 - bits)
  {
    hide BitAnd, Floor, Pow2, LeftMask4;
    PowersOfWord();
    LeftMask4IsHigh(bits);
    AndHighMask(x, 32, 32 - bits);
  }

  lemma PrefixEnds4(addr: nat, bits: int)
    requires addr < WORD
    ensures var k := 32 - Clamp(bits, 32);
            Lowest4(addr, bits) == Floor(addr, k) && Highest4(addr, bits) == Floor(addr, k) + Pow2(k) - 1 < WORD
  {
    hide BitAnd, BitOr, Floor, Pow2, LeftMask4, RightMask4;
    var b := Clamp(bits, 32);
    PowersOfWord();
    Mask4(addr, b);
    RightMask4IsLow(32 - b);
    OrLowMask(addr, 32 - b);
    FloorFits(addr, 32, 32 - b);
  }

  /** Two addresses agree on the prefix exactly when one lies between the ends that belong to the other. */
  lemma SamePrefix4(addr: nat, x: nat, bits: int)
    requires addr < WORD && x < WORD
    ensures BitAnd(x, LeftMask4(Clamp(bits, 32))) == BitAnd(addr, LeftMask4(Clamp(bits, 32)))
       <==> Lowest4(addr, bits) <= x <= Highest4(addr, bits)
  {
    var b := Clamp(bits, 32);
    Mask4(addr, b);
    Mask4(x, b);
    PrefixEnds4(addr, bits);
    FloorBlock(addr, x, 32 - b);
  }

  /** The test against a prefix accepts exactly the addresses that agree with it, if and only if the length is between 1 and 31. */
  lemma Prefix4IsExact(addr: nat, bits: int)
    requires addr < WORD
    ensures Lowest4(addr, bits) < WORD && Highest4(addr, bits) < WORD
    ensures (forall x: nat :: x < WORD ==>
               (InRange4(x, Lowest4(addr, bits), Highest4(addr, bits))
                <==> BitAnd(x, LeftMask4(Clamp(bits, 32))) == BitAnd(addr, LeftMask4(Clamp(bits, 32)))))
       <==> 1 <= bits <= 31
  {
    hide BitAnd, BitOr, Floor, Pow2, LeftMask4, RightMask4, InRange4, Lowest4, Highest4;
    var lo, hi := Lowest4(addr, bits), Highest4(addr, bits);
    PrefixEnds4(addr, bits);
    forall x: nat | x < WORD
      ensures BitAnd(x, LeftMask4(Clamp(bits, 32))) == BitAnd(addr, LeftMask4(Clamp(bits, 32))) <==> lo <= x <= hi
    {
      SamePrefix4(addr, x, bits);
    }
    InRange4IsExact(lo, hi);
    WidthOfPrefix(32 - Clamp(bits, 32));
  }

  lemma WidthOfPrefix(k: nat)
    requires k <= 32
    ensures 1 <= Pow2(k) - 1 <= HALF <==> 1 <= k <= 31
  {
    PowersOfWord();
    if 1 <= k <= 31 {
      Pow2Monotone(1, k);
      Pow2Monotone(k, 31);
    }
  }

  // ----- IPv6

  /** An address: sixteen bytes, the most significant first. */
  predicate Address6(a: seq<nat>) {
    |a| == 16 && forall i :: 0 <= i < 16 ==> a[i] < 256
  }

  /** The sign of the first difference. */
  function Memcmp(a: seq<nat>, b: seq<nat>): int
    requires |a| == |b|
  {
    if a == [] then 0 else if a[0] != b[0] then a[0] - b[0] else Memcmp(a[1..], b[1..])
  }

  /** How many of the bits of byte `i` are among the first `bits`. */
  function Kept(bits: int, i: nat): nat {
    Clamp(bits - 8 * i, 8)
  }

  /** A byte with the given number of ones at the top. */
  function HighByte(ones: nat): (b: nat)
    requires ones <= 8
  {
    PowersOfWord();
    Pow2Monotone(8 - ones, 8);
    256 - Pow2(8 - ones)
  }

  /** A byte with the given number of ones at the bottom. */
  function LowByte(ones: nat): nat
    requires ones <= 8
  {
    Pow2(ones) - 1
  }

  /** A mask with ones in the first `bits` bits. */
  predicate IsLeftMask6(mask: seq<nat>, bits: int) {
    |mask| == 16 && forall i :: 0 <= i < 16 ==> mask[i] == HighByte(Kept(bits, i))
  }

  /** A mask with ones in the last `bits` bits. */
  predicate IsRightMask6(mask: seq<nat>, bits: int) {
    |mask| == 16 && forall i :: 0 <= i < 16 ==> mask[i] == LowByte(Kept(bits, 15 - i))
  }

  function And6(a: seq<nat>, b: seq<nat>): (r: seq<nat>)
    requires |a| == |b| == 16
    ensures |r| == 16
  {
    seq(16, i requires 0 <= i < 16 => BitAnd(a[i], b[i]))
  }

  function Or6(a: seq<nat>, b: seq<nat>): (r: seq<nat>)
    requires |a| == |b| == 16
    ensures |r| == 16
  {
    seq(16, i requires 0 <= i < 16 => BitOr(a[i], b[i]))
  }

  predicate InRange6(x: seq<nat>, lo: seq<nat>, hi: seq<nat>)
    requires |x| == |lo| == |hi|
  {
    Memcmp(lo, x) <= 0 && Memcmp(x, hi) <= 0
  }

  // The masks, filled in byte by byte

  lemma NoOnes()
    ensures HighByte(0) == 0 && HighByte(8) == 0xFF && LowByte(0) == 0 && LowByte(8) == 0xFF
  {
    PowersOfWord();
  }

  /** What the shifts make of a byte of ones. */
  lemma ShiftedByte(ones: nat)
    requires 0 < ones < 8
    ensures ShiftLeft(0xFF, 8 - ones, 256) == HighByte(ones) && ShiftRight(0xFF, 8 - ones) == LowByte(ones)
  {
    hide Pow2, ShiftRight;
    PowersOfWord();
    ShiftOnes(8, 8 - ones);
    var p := Pow2(8 - ones);
    Pow2Monotone(8 - ones, 8);
    assert 0xFF * p == 256 * (p - 1) + (256 - p);
  }

  /** Byte `i` of a left mask is all ones, all zeros, or has the bits that are left over. */
  lemma LeftByte(bits: int, i: nat)
    ensures 8 * i + 8 <= bits ==> HighByte(Kept(bits, i)) == 0xFF
    ensures bits <= 8 * i ==> HighByte(Kept(bits, i)) == 0
    ensures 0 < bits - 8 * i < 8 ==> HighByte(Kept(bits, i)) == HighByte(bits - 8 * i)
  {
    if 8 * i + 8 <= bits {
      assert Kept(bits, i) == 8;
      NoOnes();
    } else if bits <= 8 * i {
      assert Kept(bits, i) == 0;
      NoOnes();
    } else {
      assert Kept(bits, i) == bits - 8 * i;
    }
  }

  lemma RightByte(bits: int, i: nat)
    ensures 8 * i + 8 <= bits ==> LowByte(Kept(bits, i)) == 0xFF
    ensures bits <= 8 * i ==> LowByte(Kept(bits, i)) == 0
    ensures 0 < bits - 8 * i < 8 ==> LowByte(Kept(bits, i)) == LowByte(bits - 8 * i)
  {
    if 8 * i + 8 <= bits {
      assert Kept(bits, i) == 8;
      NoOnes();
    } else if bits <= 8 * i {
      assert Kept(bits, i) == 0;
      NoOnes();
    } else {
      assert Kept(bits, i) == bits - 8 * i;
    }
  }

  method TopOnes(ones: nat) returns (b: nat)
    requires 0 < ones < 8
    ensures b == HighByte(ones)
  {
    ShiftedByte(ones);
    b := ShiftLeft(0xFF, 8 - ones, 256);
  }

  method BottomOnes(ones: nat) returns (b: nat)
    requires 0 < ones < 8
    ensures b == LowByte(ones)
  {
    ShiftedByte(ones);
    b := ShiftRight(0xFF, 8 - ones);
  }

  method MaskLeft6(bits: int) returns (mask: array<nat>)
    ensures fresh(mask) && IsLeftMask6(mask[..], bits)
  {
    mask := new nat[16](i => 0);
    if bits >= 128 {
      forall i | 0 <= i < 16 { mask[i] := 0xFF; }
    } else if bits > 0 {
      var n, left := 0, bits;
      while left >= 8
        invariant 0 <= n < 16 && left == bits - 8 * n && left >= 0
        invariant forall i :: 0 <= i < n ==> mask[i] == 0xFF
        invariant forall i :: n <= i < 16 ==> mask[i] == 0
      {
        mask[n] := 0xFF;
        n := n + 1;
        left := left - 8;
      }
      if left > 0 {
        mask[n] := TopOnes(left);
      }
    }
    forall i | 0 <= i < 16 ensures mask[i] == HighByte(Kept(bits, i)) {
      LeftByte(bits, i);
    }
  }

  method MaskRight6(bits: int) returns (mask: array<nat>)
    ensures fresh(mask) && IsRightMask6(mask[..], bits)
  {
    mask := new nat[16](i => 0);
    if bits >= 128 {
      forall i | 0 <= i < 16 { mask[i] := 0xFF; }
    } else if bits > 0 {
      var n, left := 15, bits;
      while left >= 8
        invariant 0 <= n < 16 && left == bits - 8 * (15 - n) && left >= 0
        invariant forall i :: n < i < 16 ==> mask[i] == 0xFF
        invariant forall i :: 0 <= i <= n ==> mask[i] == 0
      {
        mask[n] := 0xFF;
        n := n - 1;
        left := left - 8;
      }
      if left > 0 {
        mask[n] := BottomOnes(left);
      }
    }
    forall i | 0 <= i < 16 ensures mask[i] == LowByte(Kept(bits, 15 - i)) {
      RightByte(bits, 15 - i);
    }
  }

  method And6Of(addr: seq<nat>, mask: seq<nat>) returns (result: array<nat>)
    requires |addr| == |mask| == 16
    ensures fresh(result) && result[..] == And6(addr, mask)
  {
    result := new nat[16](i => 0);
    var n := 0;
    while n < 16
      invariant 0 <= n <= 16 && forall i :: 0 <= i < n ==> result[i] == BitAnd(addr[i], mask[i])
    {
      result[n] := BitAnd(addr[n], mask[n]);
      n := n + 1;
    }
  }

  method Or6Of(addr: seq<nat>, mask: seq<nat>) returns (result: array<nat>)
    requires |addr| == |mask| == 16
    ensures fresh(result) && result[..] == Or6(addr, mask)
  {
    result := new nat[16](i => 0);
    var n := 0;
    while n < 16
      invariant 0 <= n <= 16 && forall i :: 0 <= i < n ==> result[i] == BitOr(addr[i], mask[i])
    {
      result[n] := BitOr(addr[n], mask[n]);
      n := n + 1;
    }
  }

  // Ranges of addresses compared byte by byte

  predicate Bytes(a: seq<nat>) {
    forall i :: 0 <= i < |a| ==> a[i] < 256
  }

  /** `lo` and `hi` are `base` with the lowest bits of each byte cleared or set, as many as `free` says. */
  ghost predicate Spans(base: seq<nat>, free: seq<nat>, lo: seq<nat>, hi: seq<nat>) {
    && |base| == |free| == |lo| == |hi| && Bytes(base)
    && forall i :: 0 <= i < |base| ==> lo[i] == Floor(base[i], free[i]) && hi[i] == lo[i] + Pow2(free[i]) - 1
  }

  /** The free bits are the last ones: behind a byte with free bits every byte is free. */
  predicate Trailing(free: seq<nat>) {
    forall i, j :: 0 <= i < j < |free| && free[i] > 0 ==> free[j] == 8
  }

  /** `x` agrees with `base` but for the free bits. */
  predicate Agrees(x: seq<nat>, base: seq<nat>, free: seq<nat>)
    requires |x| == |base| == |free|
  {
    forall i :: 0 <= i < |x| ==> Floor(x[i], free[i]) == Floor(base[i], free[i])
  }

  lemma {:induction false} AllFree(x: seq<nat>, lo: seq<nat>, hi: seq<nat>)
    requires |x| == |lo| == |hi| && Bytes(x)
    requires forall i :: 0 <= i < |x| ==> lo[i] == 0 && hi[i] == 255
    ensures InRange6(x, lo, hi)
  {
    if x != [] {
      AllFree(x[1..], lo[1..], hi[1..]);
    }
  }

  lemma WholeByteFree(x: nat)
    requires x < 256
    ensures Floor(x, 8) == 0 && Pow2(8) == 256
  {
    PowersOfWord();
    FloorOfSmall(x, 8);
  }

  lemma RestIsFree(x: seq<nat>, base: seq<nat>, free: seq<nat>, lo: seq<nat>, hi: seq<nat>)
    requires Spans(base, free, lo, hi) && |x| == |base| && Bytes(x) && forall i :: 0 <= i < |free| ==> free[i] == 8
    ensures InRange6(x, lo, hi) && Agrees(x, base, free)
  {
    forall i | 0 <= i < |x| ensures lo[i] == 0 && hi[i] == 255 && Floor(x[i], free[i]) == Floor(base[i], free[i]) {
      WholeByteFree(x[i]);
      WholeByteFree(base[i]);
    }
    AllFree(x, lo, hi);
  }

  lemma FirstByte(x: seq<nat>, base: seq<nat>, free: seq<nat>)
    requires |x| == |base| == |free| > 0
    ensures Agrees(x, base, free) <==> Floor(x[0], free[0]) == Floor(base[0], free[0]) && Agrees(x[1..], base[1..], free[1..])
  {
    if Agrees(x[1..], base[1..], free[1..]) {
      forall i | 1 <= i < |x| ensures Floor(x[i], free[i]) == Floor(base[i], free[i]) {
        assert x[1..][i - 1] == x[i];
      }
    }
  }

  /** Comparing byte by byte with both ends decides agreement. */
  lemma {:induction false} RangeIsAgreement(x: seq<nat>, base: seq<nat>, free: seq<nat>, lo: seq<nat>, hi: seq<nat>)
    requires Spans(base, free, lo, hi) && |x| == |base| && Bytes(x) && Trailing(free)
    ensures InRange6(x, lo, hi) <==> Agrees(x, base, free)
  {
    if x != [] {
      FirstByte(x, base, free);
      FloorBlock(base[0], x[0], free[0]);
      if free[0] > 0 {
        RestIsFree(x[1..], base[1..], free[1..], lo[1..], hi[1..]);
      } else {
        RangeIsAgreement(x[1..], base[1..], free[1..], lo[1..], hi[1..]);
      }
    }
  }

  /** 256 to the power of `n`. */
  function Weight(n: nat): (w: nat)
    ensures w >= 1
  {
    if n == 0 then 1 else 256 * Weight(n - 1)
  }

  /** The number an address stands for, the first byte being the most significant. */
  function Numeric(a: seq<nat>): nat {
    if a == [] then 0 else a[0] * Weight(|a| - 1) + Numeric(a[1..])
  }

  lemma {:induction false} NumericBound(a: seq<nat>)
    requires Bytes(a)
    ensures Numeric(a) < Weight(|a|)
  {
    if a != [] {
      NumericBound(a[1..]);
      Leading(a[0], 255, Weight(|a| - 1));
    }
  }

  lemma Leading(x: nat, y: nat, w: nat)
    requires x <= y
    ensures x * w <= y * w && (x < y ==> x * w + w <= y * w)
  {
    if x < y {
      Leading(x, y - 1, w);
      assert y * w == (y - 1) * w + w;
    }
  }

  /** Comparing byte by byte compares the numbers. */
  lemma {:induction false} MemcmpIsNumeric(a: seq<nat>, b: seq<nat>)
    requires |a| == |b| && Bytes(a) && Bytes(b)
    ensures Memcmp(a, b) <= 0 <==> Numeric(a) <= Numeric(b)
  {
    if a != [] {
      var w := Weight(|a| - 1);
      NumericBound(a[1..]);
      NumericBound(b[1..]);
      if a[0] == b[0] {
        MemcmpIsNumeric(a[1..], b[1..]);
      } else if a[0] < b[0] {
        Leading(a[0], b[0], w);
      } else {
        Leading(b[0], a[0], w);
      }
    }
  }

  /** An IPv6 range, however it is given, holds exactly the addresses between its ends. */
  lemma InRange6IsExact(x: seq<nat>, lo: seq<nat>, hi: seq<nat>)
    requires |x| == |lo| == |hi| && Bytes(x) && Bytes(lo) && Bytes(hi)
    ensures InRange6(x, lo, hi) <==> Numeric(lo) <= Numeric(x) <= Numeric(hi)
  {
    MemcmpIsNumeric(lo, x);
    MemcmpIsNumeric(x, hi);
  }

  // Prefixes

  /** The free bits of each byte behind a prefix. */
  function Free(bits: nat): (f: seq<nat>)
    ensures |f| == 16 && forall i :: 0 <= i < 16 ==> f[i] == 8 - Kept(bits, i)
  {
    seq(16, i requires 0 <= i < 16 => 8 - Kept(bits, i))
  }

  lemma MaskByte(x: nat, bits: nat, i: nat)
    requires x < 256
    ensures BitAnd(x, HighByte(Kept(bits, i))) == Floor(x, 8 - Kept(bits, i))
  {
    hide BitAnd, Floor, Pow2;
    PowersOfWord();
    AndHighMask(x, 8, 8 - Kept(bits, i));
  }

  lemma Complement(bits: nat, i: nat)
    requires bits <= 128 && i < 16
    ensures Kept(128 - bits, 15 - i) == 8 - Kept(bits, i)
  {}

  lemma FillByte(x: nat, bits: nat, i: nat)
    requires bits <= 128 && i < 16
    ensures var k := 8 - Kept(bits, i);
            Kept(128 - bits, 15 - i) == k && BitOr(Floor(x, k), LowByte(k)) == Floor(x, k) + Pow2(k) - 1
  {
    hide BitOr, Floor, Pow2;
    Complement(bits, i);
    OrLowMask(x, 8 - Kept(bits, i));
  }

  lemma MaskIsAgreement(x: seq<nat>, base: seq<nat>, bits: nat, left: seq<nat>)
    requires Address6(base) && Address6(x) && IsLeftMask6(left, bits)
    ensures And6(x, left) == And6(base, left) <==> Agrees(x, base, Free(bits))
  {
    var a, b := And6(x, left), And6(base, left);
    forall i | 0 <= i < 16
      ensures a[i] == Floor(x[i], 8 - Kept(bits, i)) && b[i] == Floor(base[i], 8 - Kept(bits, i))
    {
      MaskByte(x[i], bits, i);
      MaskByte(base[i], bits, i);
    }
  }

  lemma PrefixSpans(base: seq<nat>, bits: nat, left: seq<nat>, right: seq<nat>)
    requires Address6(base) && bits <= 128 && IsLeftMask6(left, bits) && IsRightMask6(right, 128 - bits)
    ensures Spans(base, Free(bits), And6(base, left), Or6(And6(base, left), right))
  {
    hide BitAnd, BitOr, Floor, Pow2;
    forall i | 0 <= i < 16
      ensures And6(base, left)[i] == Floor(base[i], Free(bits)[i])
      ensures Or6(And6(base, left), right)[i] == And6(base, left)[i] + Pow2(Free(bits)[i]) - 1
    {
      MaskByte(base[i], bits, i);
      FillByte(base[i], bits, i);
    }
  }

  /** For every prefix length the range of a prefix holds exactly the addresses that agree with it. */
  lemma Prefix6IsExact(x: seq<nat>, base: seq<nat>, bits: int, left: seq<nat>, right: seq<nat>)
    requires Address6(base) && Address6(x)
    requires IsLeftMask6(left, Clamp(bits, 128)) && IsRightMask6(right, 128 - Clamp(bits, 128))
    ensures InRange6(x, And6(base, left), Or6(And6(base, left), right)) <==> And6(x, left) == And6(base, left)
  {
    var b := Clamp(bits, 128);
    PrefixSpans(base, b, left, right);
    RangeIsAgreement(x, base, Free(b), And6(base, left), Or6(And6(base, left), right));
    MaskIsAgreement(x, base, b, left);
  }

  /** The range of a prefix: an address is in it exactly when it agrees with the base on the first `bits` bits. */
  method PrefixRange6(base: seq<nat>, bits: int) returns (lo: array<nat>, hi: array<nat>)
    requires Address6(base)
    ensures fresh(lo) && fresh(hi) && lo.Length == hi.Length == 16
    ensures forall x :: Address6(x) ==> (InRange6(x, lo[..], hi[..]) <==> Agrees(x, base, Free(Clamp(bits, 128))))
  {
    var b := Clamp(bits, 128);
    var mask1 := MaskLeft6(b);
    var mask2 := MaskRight6(128 - b);
    lo := And6Of(base, mask1[..]);
    hi := Or6Of(lo[..], mask2[..]);
    PrefixSpans(base, b, mask1[..], mask2[..]);
    TrailingFree(b);
    forall x | Address6(x) ensures InRange6(x, lo[..], hi[..]) <==> Agrees(x, base, Free(b)) {
      RangeIsAgreement(x, base, Free(b), lo[..], hi[..]);
    }
  }

  lemma TrailingFree(bits: nat)
    requires bits <= 128
    ensures Trailing(Free(bits))
  {}
}
