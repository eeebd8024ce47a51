/** The checksum word that guards every stored pair.

    `btxfcs` is a ROM routine: its header gives the polynomial X^16 + X^15 + X^2 + 1 and the
    initial value 0.  It is modelled here as the usual bit-serial register, least significant
    bit first, on plain integers. */
module Crc {

  function Pow2(n: nat): (r: nat)
    ensures r >= 1
  {
    if n == 0 then 1 else 2 * Pow2(n - 1)
  }

  /** Whether the number of one bits is odd. */
  predicate Odd(x: nat) {
    if x == 0 then false else (x % 2 == 1) != Odd(x / 2)
  }

  /** Number of bit positions in which two words differ. */
  function Distance(x: nat, y: nat): nat
    decreases x + y
  {
    if x == 0 && y == 0 then 0
    else (if x % 2 == y % 2 then 0 else 1) + Distance(x / 2, y / 2)
  }

  /** `x` with bit `i` inverted. */
  function Toggle(x: nat, i: nat): nat
    decreases i
  {
    if i == 0 then (if x % 2 == 0 then x + 1 else x - 1)
    else 2 * Toggle(x / 2, i - 1) + x % 2
  }

  /** One shift of the register, fed with bit `b`; the feedback inverts bits 15, 13 and 0. */
  function Shift(fcs: nat, b: nat): nat {
    if fcs % 2 == b then fcs / 2
    else Toggle(Toggle(Toggle(fcs / 2, 15), 13), 0)
  }

  /** The register after the low `n` bits of `payload` have been shifted in. */
  function Fcs(fcs: nat, payload: nat, n: nat): nat
    decreases n
  {
    if n == 0 then fcs else Fcs(Shift(fcs, payload % 2), payload / 2, n - 1)
  }

  /** The same computation in the loop form of `btxfcs`; the parity of the register follows the
      parity of the bits consumed, since the polynomial has an even number of terms. */
  method Btxfcs(init: nat, payload: nat, n: nat) returns (fcs: nat)
    requires init < 0x1_0000 && payload < Pow2(n)
    ensures fcs == Fcs(init, payload, n) && fcs < 0x1_0000
    ensures Odd(fcs) == (Odd(payload) != Odd(init))
  {
    hide *;
    fcs := init;
    var rest := payload;
    for i := 0 to n
      invariant fcs < 0x1_0000 && 0 <= rest < Pow2(n - i)
      invariant Fcs(fcs, rest, n - i) == Fcs(init, payload, n)
      invariant (Odd(fcs) != Odd(rest)) == (Odd(init) != Odd(payload))
    {
      FcsStep(fcs, rest, n - i);
      OddHalf(rest);
      ShiftParity(fcs, rest % 2);
      fcs, rest := Shift(fcs, rest % 2), rest / 2;
    }
    FcsDone(fcs, rest);
  }

  lemma FcsDone(fcs: nat, rest: nat)
    requires rest < Pow2(0)
    ensures Fcs(fcs, rest, 0) == fcs && !Odd(rest)
  {
  }

  /** One bit of the payload. */
  lemma FcsStep(fcs: nat, payload: nat, n: nat)
    requires n > 0 && payload < Pow2(n)
    ensures Fcs(fcs, payload, n) == Fcs(Shift(fcs, payload % 2), payload / 2, n - 1) && payload / 2 < Pow2(n - 1)
  {
    hide Shift;
  }

  lemma OddHalf(x: nat)
    ensures Odd(x) == ((x % 2 == 1) != Odd(x / 2))
  {
  }

  lemma Pow2Values()
    ensures Pow2(16) == 0x1_0000 && Pow2(32) == 0x1_0000_0000 && Pow2(48) == 0x1_0000_0000_0000
  {
    assert Pow2(4) == 16;
    assert Pow2(8) == 16 * 16;
    assert Pow2(12) == 16 * 16 * 16;
    assert Pow2(16) == 0x1_0000;
    Pow2Adds(16, 16);
    Pow2Adds(32, 16);
  }

  lemma {:induction false} Pow2Adds(m: nat, n: nat)
    ensures Pow2(m + n) == Pow2(m) * Pow2(n)
    decreases n
  {
    if n > 0 {
      Pow2Adds(m, n - 1);
      assert Pow2(m + n) == 2 * Pow2(m + n - 1);
      assert 2 * (Pow2(m) * Pow2(n - 1)) == Pow2(m) * (2 * Pow2(n - 1));
    }
  }

  /** A word is its upper part and its lowest bit. */
  lemma OddStep(h: nat, b: nat)
    requires b < 2
    ensures Odd(2 * h + b) == ((b == 1) != Odd(h))
  {
    assert (2 * h + b) / 2 == h && (2 * h + b) % 2 == b;
  }

  lemma {:induction false} TogglePow2(x: nat, i: nat, n: nat)
    requires i < n && x < Pow2(n)
    ensures Toggle(x, i) < Pow2(n)
    decreases i
  {
    hide *;
    Halved(x, n);
    if i > 0 {
      TogglePow2(x / 2, i - 1, n - 1);
      ToggleStep(x, i);
      Doubled(Toggle(x / 2, i - 1), x % 2, Pow2(n - 1));
    } else {
      ToggleLowest(x);
      Doubled(x / 2, 1 - x % 2, Pow2(n - 1));
    }
  }

  lemma Halved(x: nat, n: nat)
    requires n > 0 && x < Pow2(n)
    ensures x / 2 < Pow2(n - 1) && Pow2(n) == 2 * Pow2(n - 1)
  {
  }

  lemma ToggleStep(x: nat, i: nat)
    requires i > 0
    ensures Toggle(x, i) == 2 * Toggle(x / 2, i - 1) + x % 2
  {
  }

  lemma ToggleLowest(x: nat)
    ensures Toggle(x, 0) == 2 * (x / 2) + (1 - x % 2)
  {
  }

  lemma Doubled(h: nat, b: nat, m: nat)
    requires h < m && b < 2
    ensures 2 * h + b < 2 * m
  {
  }

  lemma {:induction false} ToggleParity(x: nat, i: nat)
    ensures Odd(Toggle(x, i)) != Odd(x)
    decreases i
  {
    var h, b := x / 2, x % 2;
    OddStep(h, b);
    if i > 0 {
      ToggleParity(h, i - 1);
      OddStep(Toggle(h, i - 1), b);
    } else {
      OddStep(h, 1 - b);
    }
  }

  lemma ShiftParity(fcs: nat, b: nat)
    requires fcs < 0x1_0000 && b < 2
    ensures Shift(fcs, b) < 0x1_0000
    ensures Odd(Shift(fcs, b)) == (Odd(fcs) != (b == 1))
  {
    hide Odd, Pow2, Toggle;
    Pow2Values();
    var h := fcs / 2;
    OddStep(h, fcs % 2);
    var x := Toggle(h, 15);
    var y := Toggle(x, 13);
    TogglePow2(h, 15, 16);
    TogglePow2(x, 13, 16);
    TogglePow2(y, 0, 16);
    ToggleParity(h, 15);
    ToggleParity(x, 13);
    ToggleParity(y, 0);
  }

  lemma {:induction false} FcsParity(fcs: nat, payload: nat, n: nat)
    requires fcs < 0x1_0000 && payload < Pow2(n)
    ensures Fcs(fcs, payload, n) < 0x1_0000
    ensures Odd(Fcs(fcs, payload, n)) == (Odd(payload) != Odd(fcs))
    decreases n
  {
    hide *;
    if n == 0 {
      FcsDone(fcs, payload);
    } else {
      var b := payload % 2;
      FcsStep(fcs, payload, n);
      OddHalf(payload);
      ShiftParity(fcs, b);
      FcsParity(Shift(fcs, b), payload / 2, n - 1);
    }
  }

  lemma {:induction false} DistanceParity(x: nat, y: nat)
    ensures (Distance(x, y) % 2 == 1) == (Odd(x) != Odd(y))
    decreases x + y
  {
    if x != 0 || y != 0 { DistanceParity(x / 2, y / 2); }
  }

  /** The lowest bit of two joined words. */
  lemma JoinStep(hi: nat, lo: nat, n: nat)
    requires n > 0 && lo < Pow2(n)
    ensures hi * Pow2(n) + lo == 2 * (hi * Pow2(n - 1) + lo / 2) + lo % 2 && lo / 2 < Pow2(n - 1)
  {
    var p := Pow2(n - 1);
    assert Pow2(n) == 2 * p;
    hide Pow2;
    assert hi * (2 * p) == 2 * (hi * p);
  }

  lemma JoinNothing(hi: nat, lo: nat)
    requires lo < Pow2(0)
    ensures hi * Pow2(0) + lo == hi && !Odd(lo)
  {
  }

  /** Joining two words joins their one bits. */
  lemma {:induction false} OddJoin(hi: nat, lo: nat, n: nat)
    requires lo < Pow2(n)
    ensures Odd(hi * Pow2(n) + lo) == (Odd(hi) != Odd(lo))
    decreases n
  {
    hide *;
    if n == 0 {
      JoinNothing(hi, lo);
    } else {
      JoinStep(hi, lo, n);
      OddStep(hi * Pow2(n - 1) + lo / 2, lo % 2);
      OddHalf(lo);
      OddJoin(hi, lo / 2, n - 1);
    }
  }

  // ----- what the register holds: a remainder

  predicate Bit(x: nat, j: nat) {
    if j == 0 then x % 2 == 1 else Bit(x / 2, j - 1)
  }

  /** The low `n` bits of a word as a polynomial over the integers modulo 2, highest power first: the
      lowest bit, which is shifted in first, belongs to the highest power. */
  function Bits(x: nat, n: nat): (p: seq<bool>)
    ensures |p| == n
  {
    seq(n, j requires 0 <= j < n => Bit(x, j))
  }

  function Zeros(n: nat): (p: seq<bool>)
    ensures |p| == n
  {
    seq(n, _ => false)
  }

  function Plus(p: seq<bool>, q: seq<bool>): (r: seq<bool>)
    requires |p| == |q|
    ensures |r| == |p|
  {
    seq(|p|, i requires 0 <= i < |p| => p[i] != q[i])
  }

  /** The product, row by row: every term of `q` times `g`, shifted to its place. */
  function Times(q: seq<bool>, g: seq<bool>): (r: seq<bool>)
    requires |g| > 0
    ensures |r| == |q| + |g| - 1
  {
    if q == [] then Zeros(|g| - 1)
    else Plus(if q[0] then g + Zeros(|q| - 1) else Zeros(|q| + |g| - 1), [false] + Times(q[1..], g))
  }

  /** X^16 + X^15 + X^2 + 1 */
  function Generator(): (g: seq<bool>)
    ensures |g| == 17
  {
    seq(17, i requires 0 <= i < 17 => 16 - i in {16, 15, 2, 0})
  }

  /** `r` is what is left of `message` times X^16 when it is divided by the generator. */
  ghost predicate Remainder(message: seq<bool>, r: nat) {
    r < 0x1_0000 && exists q | |q| == |message| :: Divides(message, q, r)
  }

  ghost predicate Divides(message: seq<bool>, q: seq<bool>, r: nat)
    requires |q| == |message|
  {
    message + Zeros(16) == Plus(Times(q, Generator()), Zeros(|q|) + Bits(r, 16))
  }

  lemma {:induction false} BitToggle(x: nat, i: nat, j: nat)
    ensures Bit(Toggle(x, i), j) == (Bit(x, j) != (i == j))
    decreases i
  {
    if i > 0 && j > 0 {
      BitToggle(x / 2, i - 1, j - 1);
      assert Toggle(x, i) / 2 == Toggle(x / 2, i - 1);
    }
  }

  lemma {:induction false} BitAbove(x: nat, n: nat)
    requires x < Pow2(n)
    ensures !Bit(x, n)
    decreases n
  {
    if n > 0 { BitAbove(x / 2, n - 1); }
  }

  /** One shift: the bits move up by one power, and the lower terms of the generator are added if the
      highest power has a term. */
  lemma ShiftBits(fcs: nat, b: nat, j: nat)
    requires fcs < 0x1_0000 && b < 2 && j < 16
    ensures Bit(Shift(fcs, b), j) == ((j < 15 && Bit(fcs, j + 1)) != ((fcs % 2 != b) && Generator()[j + 1]))
  {
    hide Bit, Toggle, Pow2, Shift;
    Pow2Values();
    BitAbove(fcs, 16);
    BitHalf(fcs, j);
    ShiftIs(fcs, b);
    var x := Toggle(fcs / 2, 15);
    BitToggle(fcs / 2, 15, j);
    BitToggle(x, 13, j);
    BitToggle(Toggle(x, 13), 0, j);
  }

  lemma BitHalf(x: nat, j: nat)
    ensures Bit(x / 2, j) == Bit(x, j + 1)
  {
  }

  lemma ShiftIs(fcs: nat, b: nat)
    ensures Shift(fcs, b) == if fcs % 2 == b then fcs / 2 else Toggle(Toggle(Toggle(fcs / 2, 15), 13), 0)
  {
  }

  /** The register after `n` bits, started with `init`. */
  lemma {:induction false} FcsDivides(init: nat, payload: nat, n: nat) returns (q: seq<bool>)
    requires init < 0x1_0000 && payload < Pow2(n)
    ensures |q| == n
    ensures Plus(Bits(payload, n) + Zeros(16), Bits(init, 16) + Zeros(n))
         == Plus(Times(q, Generator()), Zeros(n) + Bits(Fcs(init, payload, n), 16))
    decreases n
  {
    hide *;
    if n == 0 {
      q := [];
      NothingDivides(init, payload);
    } else {
      var b := payload % 2;
      FcsStep(init, payload, n);
      ShiftParity(init, b);
      var rest := FcsDivides(Shift(init, b), payload / 2, n - 1);
      q := [init % 2 != b] + rest;
      assert q[1..] == rest;
      DivideStep(init, payload, n, q, Fcs(init, payload, n));
    }
  }

  lemma NothingDivides(init: nat, payload: nat)
    requires payload < Pow2(0)
    ensures Plus(Bits(payload, 0) + Zeros(16), Bits(init, 16) + Zeros(0))
         == Plus(Times([], Generator()), Zeros(0) + Bits(Fcs(init, payload, 0), 16))
  {
    hide Bit;
    assert Bits(payload, 0) + Zeros(16) == Zeros(16) && Bits(init, 16) + Zeros(0) == Zeros(0) + Bits(init, 16);
  }

  /** One row of the division. */
  lemma DivideStep(init: nat, payload: nat, n: nat, q: seq<bool>, r: nat)
    requires n > 0 && |q| == n && init < 0x1_0000 && q[0] == (init % 2 != payload % 2)
    requires Plus(Bits(payload / 2, n - 1) + Zeros(16), Bits(Shift(init, payload % 2), 16) + Zeros(n - 1))
          == Plus(Times(q[1..], Generator()), Zeros(n - 1) + Bits(r, 16))
    ensures Plus(Bits(payload, n) + Zeros(16), Bits(init, 16) + Zeros(n)) == Plus(Times(q, Generator()), Zeros(n) + Bits(r, 16))
  {
    var left, right := Plus(Bits(payload, n) + Zeros(16), Bits(init, 16) + Zeros(n)), Plus(Times(q, Generator()), Zeros(n) + Bits(r, 16));
    forall i | 0 <= i < n + 16 ensures left[i] == right[i] { DivideAt(init, payload, n, q, r, i); }
  }

  lemma TimesAt(q: seq<bool>, g: seq<bool>, i: nat)
    requires q != [] && g != [] && i < |q| + |g| - 1
    ensures Times(q, g)[i] == ((q[0] && i < |g| && g[i]) != (i > 0 && Times(q[1..], g)[i - 1]))
  {
  }

  lemma DivideAt(init: nat, payload: nat, n: nat, q: seq<bool>, r: nat, i: nat)
    requires n > 0 && |q| == n && init < 0x1_0000 && q[0] == (init % 2 != payload % 2) && i < n + 16
    requires Plus(Bits(payload / 2, n - 1) + Zeros(16), Bits(Shift(init, payload % 2), 16) + Zeros(n - 1))
          == Plus(Times(q[1..], Generator()), Zeros(n - 1) + Bits(r, 16))
    ensures Plus(Bits(payload, n) + Zeros(16), Bits(init, 16) + Zeros(n))[i] == Plus(Times(q, Generator()), Zeros(n) + Bits(r, 16))[i]
  {
    hide *;
    var b := payload % 2;
    LeftAt(payload, init, n, i);
    if i == 0 {
      TopRow(q, Bits(r, 16));
      LowestBit(payload);
      LowestBit(init);
    } else {
      LeftAt(payload / 2, Shift(init, b), n - 1, i - 1);
      BitHalf(payload, i - 1);
      if i <= 16 { ShiftBits(init, b, i - 1); }
      RowAt(q, Bits(r, 16), i - 1);
    }
  }

  lemma LeftAt(payload: nat, init: nat, n: nat, i: nat)
    requires i < n + 16
    ensures Plus(Bits(payload, n) + Zeros(16), Bits(init, 16) + Zeros(n))[i] == ((i < n && Bit(payload, i)) != (i < 16 && Bit(init, i)))
  {
    hide Bit;
  }

  lemma LowestBit(x: nat)
    ensures Bit(x, 0) == (x % 2 == 1)
  {
  }

  /** Quotient and remainder are unique. */
  lemma {:induction false} RemainderUnique(q: seq<bool>, r: seq<bool>, q': seq<bool>, r': seq<bool>)
    requires |q| == |q'| && |r| == |r'| == 16
    requires Plus(Times(q, Generator()), Zeros(|q|) + r) == Plus(Times(q', Generator()), Zeros(|q|) + r')
    ensures q == q' && r == r'
    decreases |q|
  {
    hide *;
    if |q| == 0 {
      assert q == [] && q' == [];
      NothingUnique(r, r');
    } else {
      FirstRow(q, r, q', r');
      RemainderUnique(q[1..], r, q'[1..], r');
      assert q == [q[0]] + q[1..] && q' == [q'[0]] + q'[1..];
    }
  }

  lemma NothingUnique(r: seq<bool>, r': seq<bool>)
    requires |r| == |r'| == 16
    requires Plus(Times([], Generator()), Zeros(0) + r) == Plus(Times([], Generator()), Zeros(0) + r')
    ensures r == r'
  {
    var left, right := Plus(Times([], Generator()), Zeros(0) + r), Plus(Times([], Generator()), Zeros(0) + r');
    forall i | 0 <= i < 16 ensures r[i] == r'[i] { assert left[i] == right[i]; }
  }

  lemma FirstRow(q: seq<bool>, r: seq<bool>, q': seq<bool>, r': seq<bool>)
    requires |q| == |q'| > 0 && |r| == |r'| == 16
    requires Plus(Times(q, Generator()), Zeros(|q|) + r) == Plus(Times(q', Generator()), Zeros(|q|) + r')
    ensures q[0] == q'[0]
    ensures Plus(Times(q[1..], Generator()), Zeros(|q| - 1) + r) == Plus(Times(q'[1..], Generator()), Zeros(|q| - 1) + r')
  {
    hide *;
    var n := |q|;
    TopRow(q, r);
    TopRow(q', r');
    var left1, right1 := Plus(Times(q[1..], Generator()), Zeros(n - 1) + r), Plus(Times(q'[1..], Generator()), Zeros(n - 1) + r');
    forall i | 0 <= i < n + 15 ensures left1[i] == right1[i] {
      RowAt(q, r, i);
      RowAt(q', r', i);
    }
  }

  lemma TopRow(q: seq<bool>, r: seq<bool>)
    requires |q| > 0 && |r| == 16
    ensures Plus(Times(q, Generator()), Zeros(|q|) + r)[0] == q[0]
  {
    hide *;
    LeadingTerm();
    TimesAt(q, Generator(), 0);
    PlusAt(Times(q, Generator()), Zeros(|q|) + r, 0);
    PadAt(|q|, r, 0);
  }

  /** A row is the next one with the generator added or not. */
  lemma RowAt(q: seq<bool>, r: seq<bool>, i: nat)
    requires |q| > 0 && |r| == 16 && i < |q| + 15
    ensures Plus(Times(q[1..], Generator()), Zeros(|q| - 1) + r)[i] ==
      (Plus(Times(q, Generator()), Zeros(|q|) + r)[i + 1] != (q[0] && i < 16 && Generator()[i + 1]))
  {
    hide *;
    var rest, pad, pad1 := Times(q[1..], Generator()), Zeros(|q|) + r, Zeros(|q| - 1) + r;
    NextTerm(q, Generator(), i);
    PadNext(|q|, r, i);
    RowOf(Times(q, Generator()), pad, rest, pad1, q[0] && i < 16 && Generator()[i + 1], i);
  }

  lemma RowOf(p: seq<bool>, pad: seq<bool>, rest: seq<bool>, pad1: seq<bool>, x: bool, i: nat)
    requires |p| == |pad| && |rest| == |pad1| && i + 1 < |p| && i < |rest|
    requires p[i + 1] == (x != rest[i]) && pad[i + 1] == pad1[i]
    ensures Plus(rest, pad1)[i] == (Plus(p, pad)[i + 1] != x)
  {
  }

  lemma NextTerm(q: seq<bool>, g: seq<bool>, i: nat)
    requires q != [] && |g| == 17 && i < |q| + 15
    ensures Times(q, g)[i + 1] == ((q[0] && i < 16 && g[i + 1]) != Times(q[1..], g)[i])
  {
    hide *;
    TimesAt(q, g, i + 1);
  }

  lemma PadNext(n: nat, r: seq<bool>, i: nat)
    requires n > 0 && i < n - 1 + |r|
    ensures (Zeros(n) + r)[i + 1] == (Zeros(n - 1) + r)[i]
  {
  }

  lemma LeadingTerm()
    ensures Generator()[0]
  {
  }

  lemma PlusAt(p: seq<bool>, q: seq<bool>, i: nat)
    requires i < |p| == |q|
    ensures Plus(p, q)[i] == (p[i] != q[i])
  {
  }

  lemma PadAt(n: nat, r: seq<bool>, i: nat)
    requires i < n + |r|
    ensures (Zeros(n) + r)[i] == (i >= n && r[i - n])
  {
  }

  lemma {:induction false} SameBits(x: nat, y: nat, n: nat)
    requires x < Pow2(n) && y < Pow2(n) && forall j | 0 <= j < n :: Bit(x, j) == Bit(y, j)
    ensures x == y
    decreases n
  {
    if n > 0 {
      assert Bit(x, 0) == Bit(y, 0);
      forall j | 0 <= j < n - 1 ensures Bit(x / 2, j) == Bit(y / 2, j) { assert Bit(x, j + 1) == Bit(y, j + 1); }
      SameBits(x / 2, y / 2, n - 1);
    }
  }

  /** With initial value 0 the register ends up with the remainder of the payload, and with nothing else. */
  lemma FcsRemainder(payload: nat, n: nat, r: nat)
    requires payload < Pow2(n)
    ensures Remainder(Bits(payload, n), r) <==> r == Fcs(0, payload, n)
  {
    hide *;
    FcsParity(0, payload, n);
    var fcs := Fcs(0, payload, n);
    var q := FcsDivides(0, payload, n);
    ZeroRegister(payload, n);
    RemainderBy(Bits(payload, n), q, fcs);
    OnlyRemainder(Bits(payload, n), r, fcs);
  }

  lemma ZeroRegister(payload: nat, n: nat)
    ensures |Bits(payload, n)| == n
    ensures Plus(Bits(payload, n) + Zeros(16), Bits(0, 16) + Zeros(n)) == Bits(payload, n) + Zeros(16)
  {
    forall j: nat ensures !Bit(0, j) { BitOfZero(j); }
  }

  lemma {:induction false} BitOfZero(j: nat)
    ensures !Bit(0, j)
    decreases j
  {
    if j > 0 { BitOfZero(j - 1); }
  }

  lemma RemainderBy(message: seq<bool>, q: seq<bool>, r: nat)
    requires r < 0x1_0000 && |q| == |message|
    requires message + Zeros(16) == Plus(Times(q, Generator()), Zeros(|q|) + Bits(r, 16))
    ensures Remainder(message, r)
  {
    hide Bits, Times, Plus, Zeros;
    assert Divides(message, q, r);
  }

  lemma OnlyRemainder(message: seq<bool>, r: nat, r': nat)
    requires Remainder(message, r')
    ensures Remainder(message, r) <==> r == r'
  {
    hide Bit, Times, Pow2;
    if Remainder(message, r) {
      var q :| |q| == |message| && Divides(message, q, r);
      var q' :| |q'| == |message| && Divides(message, q', r');
      RemainderUnique(q, Bits(r, 16), q', Bits(r', 16));
      forall j | 0 <= j < 16 ensures Bit(r, j) == Bit(r', j) { assert Bits(r, 16)[j] == Bits(r', 16)[j]; }
      Pow2Values();
      SameBits(r, r', 16);
    }
  }

  // ----- bytes

  function Bytes(x: nat, k: nat): (bytes: seq<nat>)
    ensures |bytes| == k
  {
    if k == 0 then [] else [x % 0x100] + Bytes(x / 0x100, k - 1)
  }

  function BitsOf(bytes: seq<nat>): seq<bool> {
    if bytes == [] then [] else Bits(bytes[0], 8) + BitsOf(bytes[1..])
  }

  lemma BitDiv(x: nat, j: nat)
    ensures Bit(x / 0x100, j) == Bit(x, 8 + j)
  {
    hide Bit;
    var x4 := x / 2 / 2 / 2 / 2;
    assert x / 0x100 == x4 / 2 / 2 / 2 / 2;
    BitHalf(x, 7 + j);
    BitHalf(x / 2, 6 + j);
    BitHalf(x / 2 / 2, 5 + j);
    BitHalf(x / 2 / 2 / 2, 4 + j);
    BitHalf(x4, 3 + j);
    BitHalf(x4 / 2, 2 + j);
    BitHalf(x4 / 2 / 2, 1 + j);
    BitHalf(x4 / 2 / 2 / 2, j);
  }

  lemma DivIs(y: nat, m: nat, q: nat, s: nat)
    requires m > 0 && s < m && y == m * q + s
    ensures y / m == q
  {
    var z := y / m;
    assert y == m * z + y % m;
    if z > q {
      Further(m, q, z);
      assert false;
    } else if z < q {
      Further(m, z, q);
      assert false;
    }
  }

  lemma Further(m: nat, a: nat, b: nat)
    requires a < b
    ensures m * a + m <= m * b
  {
    assert m * b == m * (a + 1) + m * (b - (a + 1));
  }

  /** The low byte of a word, and the rest. */
  lemma ByteBits(x: nat, n: nat)
    ensures Bits(x, 8 + n) == Bits(x % 0x100, 8) + Bits(x / 0x100, n)
  {
    assert Pow2(4) == 16;
    assert Pow2(8) == 0x100;
    forall j | 0 <= j < 8 + n ensures Bits(x, 8 + n)[j] == (Bits(x % 0x100, 8) + Bits(x / 0x100, n))[j] {
      hide Bit;
      if j < 8 { BitLow(x, 8, j); } else { BitDiv(x, j - 8); }
    }
  }

  lemma {:induction false} BitLow(x: nat, n: nat, j: nat)
    requires j < n
    ensures Bit(x % Pow2(n), j) == Bit(x, j)
    decreases n
  {
    var m := Pow2(n - 1);
    ModHalf(x, m);
    if j > 0 { BitLow(x / 2, n - 1, j - 1); }
  }

  lemma ModHalf(x: nat, m: nat)
    requires m > 0
    ensures x % (2 * m) / 2 == x / 2 % m && x % (2 * m) % 2 == x % 2
  {
    var q, r := x / (2 * m), x % (2 * m);
    assert x == m * q * 2 + r;
    assert x / 2 == m * q + r / 2;
    assert r / 2 < m;
    DivIs(x / 2, m, q, r / 2);
  }

  lemma {:induction false} BytesBits(x: nat, k: nat)
    ensures BitsOf(Bytes(x, k)) == Bits(x, 8 * k)
    decreases k
  {
    hide Bits;
    if k == 0 {
      NoBits(x);
    } else {
      BytesBits(x / 0x100, k - 1);
      ByteBits(x, 8 * (k - 1));
      assert Bytes(x, k)[1..] == Bytes(x / 0x100, k - 1);
    }
  }

  lemma NoBits(x: nat)
    ensures Bits(x, 0) == []
  {
  }

  lemma {:induction false} BitsOfConcat(b: seq<nat>, c: seq<nat>)
    ensures BitsOf(b + c) == BitsOf(b) + BitsOf(c)
    decreases |b|
  {
    hide Bits;
    if b == [] {
      assert b + c == c;
    } else {
      BitsOfConcat(b[1..], c);
      assert (b + c)[1..] == b[1..] + c;
    }
  }

  lemma BitsAt(x: nat, n: nat, j: nat)
    requires j < n
    ensures Bits(x, n)[j] == Bit(x, j)
  {
    hide Bit;
  }

  lemma JoinedBits(hi: nat, m: nat, lo: nat, n: nat)
    requires lo < Pow2(n)
    ensures Bits(hi * Pow2(n) + lo, n + m) == Bits(lo, n) + Bits(hi, m)
  {
    hide *;
    forall j | 0 <= j < n + m ensures Bits(hi * Pow2(n) + lo, n + m)[j] == (Bits(lo, n) + Bits(hi, m))[j] {
      JoinedBit(hi, lo, n, j);
      BitsAt(hi * Pow2(n) + lo, n + m, j);
      if j < n { BitsAt(lo, n, j); } else { BitsAt(hi, m, j - n); }
    }
  }

  lemma NextBit(x: nat, j: nat)
    requires j > 0
    ensures Bit(x, j) == Bit(x / 2, j - 1)
  {
  }

  lemma LowBit(h: nat, lo: nat)
    ensures (2 * h + lo % 2) / 2 == h && Bit(2 * h + lo % 2, 0) == Bit(lo, 0)
  {
  }

  lemma {:induction false} JoinedBit(hi: nat, lo: nat, n: nat, j: nat)
    requires lo < Pow2(n)
    ensures Bit(hi * Pow2(n) + lo, j) == if j < n then Bit(lo, j) else Bit(hi, j - n)
    decreases n
  {
    hide *;
    if n == 0 {
      JoinNothing(hi, lo);
    } else {
      JoinStep(hi, lo, n);
      LowBit(hi * Pow2(n - 1) + lo / 2, lo);
      if j > 0 {
        JoinedBit(hi, lo / 2, n - 1, j - 1);
        NextBit(hi * Pow2(n) + lo, j);
        NextBit(lo, j);
      }
    }
  }
}
