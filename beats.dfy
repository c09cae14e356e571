/**
 * Temporal::Beats: musical time as a whole number of beats plus ticks at a
 * fixed resolution of PPQN ticks per beat (libs/temporal/temporal/beats.h).
 *
 * The value is the datatype Beats; the operations that C++ writes as const
 * members or static factories are functions over it, and the ones that update
 * a Beats variable in place (normalize, +=, -=, assignment) are methods of the
 * class BeatsVar. Fields are unbounded integers: 32-bit overflow of _beats and
 * _ticks is not modelled, but the unsigned 32-bit arithmetic in to_ticks(ppqn)
 * is, because it changes the result for ordinary negative values.
 */
module Temporal {

  const INT32_MAX: int := 0x7fff_ffff
  const UINT32_MODULUS: int := 0x1_0000_0000

  type PositiveInt32 = n: int | 0 < n <= INT32_MAX witness 1920

  /** Temporal::ticks_per_beat. It is defined in types.h, which is not part of
      this model: only its range, a positive int32, is assumed. */
  const TicksPerBeat: PositiveInt32

  /** Beats::PPQN (beats.h:40), the same constant. */
  const PPQN: int := TicksPerBeat

  /** The two int32 fields _beats and _ticks. */
  datatype Beats = Beats(beats: int, ticks: int)

  // ---------------------------------------------------------------------------
  // Integer arithmetic helpers
  // ---------------------------------------------------------------------------

  function Abs(n: int): (r: nat) { if n < 0 then -n else n }

  /** C++ integer division, which truncates toward zero. */
  function TruncDiv(a: int, d: int): (q: int)
    requires d != 0
  {
    if 0 <= a then a / Abs(d) * (if d < 0 then -1 else 1)
    else -(Abs(a) / Abs(d)) * (if d < 0 then -1 else 1)
  }

  /** C++ %, whose result takes the sign of the dividend. */
  function TruncMod(a: int, d: int): (m: int)
    requires d != 0
  {
    if 0 <= a then a % Abs(d) else -(Abs(a) % Abs(d))
  }

  lemma MulMonotone(a: int, b: int, d: int)
    requires a <= b && 0 <= d
    ensures a * d <= b * d
  {
    assert b * d - a * d == (b - a) * d;
  }

  /** Euclidean division is determined by quotient and remainder. */
  lemma DivModUnique(x: int, d: int, q: int, m: int)
    requires 0 < d && 0 <= m < d && x == q * d + m
    ensures x / d == q && x % d == m
  {
    var q', m' := x / d, x % d;
    if q < q' {
      MulMonotone(q + 1, q', d);
    } else if q' < q {
      MulMonotone(q' + 1, q, d);
    }
  }

  // ---------------------------------------------------------------------------
  // Normalisation (beats.h:45-68)
  // ---------------------------------------------------------------------------

  /** The shape normalize() leaves a value in: |ticks| < PPQN, and ticks carries
      the sign of beats, beats == 0 counting as positive. */
  predicate IsNormal(x: Beats)
  {
    && -PPQN < x.ticks < PPQN
    && (0 <= x.beats ==> 0 <= x.ticks)
    && (x.beats < 0 ==> x.ticks <= 0)
  }

  /** Beats::to_ticks(): the total number of ticks the pair stands for. On
      normalised values the sign of the total is the sign of beats, and no
      total lies strictly between minus one beat and zero. */
  function ToTicks(x: Beats): (r: int)
    ensures IsNormal(x) && 0 <= x.beats ==> 0 <= r
    ensures IsNormal(x) && x.beats < 0 ==> r <= -PPQN
  {
    BeatsTimesPpqnSign(x.beats);
    x.beats * PPQN + x.ticks
  }

  lemma BeatsTimesPpqnSign(b: int)
    ensures 0 <= b ==> 0 <= b * PPQN
    ensures b < 0 ==> b * PPQN <= -PPQN
  {
    if 0 <= b { MulMonotone(0, b, PPQN); } else { MulMonotone(b, -1, PPQN); }
  }

  /** The first loop of normalize (beats.h:47-52): while ticks is negative,
      take one beat and add PPQN ticks. */
  function Borrow(b: int, t: int): (r: Beats)
    decreases if t < 0 then -t else 0
    ensures t < 0 ==> r == Beats(b + t / PPQN, t % PPQN)
    ensures 0 <= t ==> r == Beats(b, t)
  {
    if t < 0 then
      var r := Borrow(b - 1, t + PPQN);
      if t + PPQN < 0 then
        DivModUnique(t, PPQN, (t + PPQN) / PPQN - 1, (t + PPQN) % PPQN);
        r
      else
        DivModUnique(t, PPQN, -1, t + PPQN);
        r
    else
      Beats(b, t)
  }

  /** The second loop of normalize (beats.h:60-63), on magnitudes: while ticks
      reaches PPQN, turn PPQN ticks into one beat. */
  function Carry(b: int, t: int): (r: Beats)
    requires 0 <= t
    decreases t
    ensures r == Beats(b + t / PPQN, t % PPQN)
  {
    if t >= PPQN then
      var r := Carry(b + 1, t - PPQN);
      DivModUnique(t, PPQN, (t - PPQN) / PPQN + 1, (t - PPQN) % PPQN);
      r
    else
      DivModUnique(t, PPQN, 0, t);
      Beats(b, t)
  }

  /** normalize() as a function of the pair it starts from: borrow for negative
      ticks under non-negative beats, then carry on magnitudes and re-apply the
      sign of beats to both fields. This is also the constructor Beats(b, t)
      (beats.h:71-73). */
  function Normalized(x: Beats): (r: Beats)
    ensures IsNormal(r)
  {
    var s := if 0 <= x.beats then Borrow(x.beats, x.ticks) else x;
    var m := Carry(Abs(s.beats), Abs(s.ticks));
    if s.beats < 0 then Beats(-m.beats, -m.ticks) else m
  }

  /** The total that normalize() leaves: the original total when beats and the
      total are non-negative; a reflected remainder when non-negative beats
      meet a negative total; and beats*PPQN - |ticks| when beats is negative. */
  lemma NormalizedTicks(x: Beats)
    ensures ToTicks(Normalized(x)) ==
      if x.beats < 0 then x.beats * PPQN - Abs(x.ticks)
      else if 0 <= ToTicks(x) then ToTicks(x)
      else ToTicks(x) - 2 * (x.ticks % PPQN)
  {
    if x.beats < 0 {
      NormalizedTicksNegativeBeats(x.beats, x.ticks);
    } else if 0 <= x.ticks {
      NormalizedTicksNonNegative(x.beats, x.ticks);
    } else {
      NormalizedTicksBorrow(x.beats, x.ticks);
    }
  }

  lemma NormalizedTicksNegativeBeats(b: int, t: int)
    requires b < 0
    ensures ToTicks(Normalized(Beats(b, t))) == b * PPQN - Abs(t)
  {
    var q, m := Abs(t) / PPQN, Abs(t) % PPQN;
    assert Normalized(Beats(b, t)) == Beats(b - q, -m);
    assert (b - q) * PPQN == b * PPQN - q * PPQN;
  }

  lemma NormalizedTicksNonNegative(b: int, t: int)
    requires 0 <= b && 0 <= t
    ensures ToTicks(Normalized(Beats(b, t))) == b * PPQN + t
  {
    var q, m := t / PPQN, t % PPQN;
    assert Normalized(Beats(b, t)) == Beats(b + q, m);
    assert (b + q) * PPQN == b * PPQN + q * PPQN;
  }

  lemma NormalizedTicksBorrow(b: int, t: int)
    requires 0 <= b && t < 0
    ensures var total := b * PPQN + t;
      ToTicks(Normalized(Beats(b, t))) == if 0 <= total then total else total - 2 * (t % PPQN)
  {
    var q, t1 := t / PPQN, t % PPQN;
    var b1 := b + q;
    assert b * PPQN + t == b1 * PPQN + t1 by {
      assert b1 * PPQN == b * PPQN + q * PPQN;
    }
    assert Borrow(b, t) == Beats(b1, t1);
    DivModUnique(t1, PPQN, 0, t1);
    assert Carry(Abs(b1), t1) == Beats(Abs(b1), t1);
    BeatsTimesPpqnSign(b1);
    if 0 <= b1 {
      assert Normalized(Beats(b, t)) == Beats(b1, t1);
    } else {
      assert Normalized(Beats(b, t)) == Beats(b1, -t1);
    }
  }

  /** normalize() keeps the total exactly when beats and the total are both
      non-negative, or the ticks are a whole number of beats under non-negative
      beats, or beats is negative and ticks non-positive. */
  lemma NormalizePreservesTicks(x: Beats)
    ensures ToTicks(Normalized(x)) == ToTicks(x) <==>
      || (0 <= x.beats && (0 <= ToTicks(x) || x.ticks % PPQN == 0))
      || (x.beats < 0 && x.ticks <= 0)
  {
    NormalizedTicks(x);
  }

  /** Beats(0, -1) comes out as (-1, -(PPQN-1)), a total of -2*PPQN+1, which
      is 2*PPQN-2 ticks below the intended -1 tick: the borrow gives
      (-1, PPQN-1), and the sign of the beats is then put on both magnitudes. */
  lemma NormalizeMixedSignExample()
    ensures Normalized(Beats(0, -1)) == Beats(-1, -(PPQN - 1))
    ensures ToTicks(Normalized(Beats(0, -1))) == -2 * PPQN + 1
  {
    DivModUnique(-1, PPQN, -1, PPQN - 1);
    DivModUnique(PPQN - 1, PPQN, 0, PPQN - 1);
  }

  /** The fixed points of normalize() are exactly the normalised values; so
      normalize() is idempotent. */
  lemma NormalizeFixesExactlyNormal(x: Beats)
    ensures Normalized(x) == x <==> IsNormal(x)
    ensures Normalized(Normalized(x)) == Normalized(x)
  {
    if IsNormal(x) {
      DivModUnique(Abs(x.ticks), PPQN, 0, Abs(x.ticks));
    }
    var n := Normalized(x);
    DivModUnique(Abs(n.ticks), PPQN, 0, Abs(n.ticks));
  }

  // ---------------------------------------------------------------------------
  // Order (beats.h:239-270)
  // ---------------------------------------------------------------------------

  /** On normalised values the lexicographic order of (beats, ticks) is the
      order of the totals. */
  lemma NormalOrder(a: Beats, b: Beats)
    ensures IsNormal(a) && IsNormal(b) ==>
      ((a.beats < b.beats || (a.beats == b.beats && a.ticks < b.ticks)) <==>
       ToTicks(a) < ToTicks(b))
  {
    if IsNormal(a) && IsNormal(b) {
      if a.beats < b.beats {
        LexBeatsOrder(a, b);
      } else if b.beats < a.beats {
        LexBeatsOrder(b, a);
      }
    }
  }

  lemma LexBeatsOrder(a: Beats, b: Beats)
    requires IsNormal(a) && IsNormal(b) && a.beats < b.beats
    ensures ToTicks(a) < ToTicks(b)
  {
    MulMonotone(a.beats + 1, b.beats, PPQN);
    assert (a.beats + 1) * PPQN == a.beats * PPQN + PPQN;
    BeatsTimesPpqnSign(b.beats);
  }

  /** Normalised values are determined by their totals. */
  lemma NormalTicksInjective(a: Beats, b: Beats)
    ensures IsNormal(a) && IsNormal(b) && ToTicks(a) == ToTicks(b) ==> a == b
  {
    NormalOrder(a, b);
    NormalOrder(b, a);
  }

  /** operator==(Beats) (beats.h:239-241): field-wise equality. On normalised
      values it is equality of the totals. */
  function Equal(a: Beats, b: Beats): (r: bool)
    ensures r <==> a == b
    ensures IsNormal(a) && IsNormal(b) ==> (r <==> ToTicks(a) == ToTicks(b))
  {
    NormalTicksInjective(a, b);
    a.beats == b.beats && a.ticks == b.ticks
  }

  /** operator!=(Beats) (beats.h:252-254). */
  function NotEqual(a: Beats, b: Beats): (r: bool)
    ensures r <==> a != b
  {
    !Equal(a, b)
  }

  /** operator<(Beats) (beats.h:256-258): lexicographic on (beats, ticks); on
      normalised values, the order of the totals. */
  function Less(a: Beats, b: Beats): (r: bool)
    ensures IsNormal(a) && IsNormal(b) ==> (r <==> ToTicks(a) < ToTicks(b))
  {
    NormalOrder(a, b);
    a.beats < b.beats || (a.beats == b.beats && a.ticks < b.ticks)
  }

  /** operator<=(Beats) (beats.h:260-262): less than or equal. */
  function LessEq(a: Beats, b: Beats): (r: bool)
    ensures r <==> Less(a, b) || a == b
  {
    a.beats < b.beats || (a.beats == b.beats && a.ticks <= b.ticks)
  }

  /** operator>(Beats) (beats.h:264-266): the converse of Less. */
  function Greater(a: Beats, b: Beats): (r: bool)
    ensures r <==> Less(b, a)
  {
    a.beats > b.beats || (a.beats == b.beats && a.ticks > b.ticks)
  }

  /** operator>=(Beats) (beats.h:268-270): greater than or equal. */
  function GreaterEq(a: Beats, b: Beats): (r: bool)
    ensures r <==> Greater(a, b) || a == b
  {
    a.beats > b.beats || (a.beats == b.beats && a.ticks >= b.ticks)
  }

  /** Exactly one of a < b, a == b, a > b holds. */
  lemma OrderTrichotomy(a: Beats, b: Beats)
    ensures Less(a, b) || Equal(a, b) || Greater(a, b)
    ensures !(Less(a, b) && Equal(a, b)) && !(Less(a, b) && Greater(a, b))
    ensures !(Equal(a, b) && Greater(a, b))
  {
  }

  /** operator==(int) (beats.h:248-250): compares the beats field only, so it
      holds when the value lies anywhere within whole beat n. */
  function EqualsWholeBeats(x: Beats, n: int): (r: bool)
    ensures r <==> RoundDownToBeat(x) == FromBeats(n)
    ensures IsNormal(x) && 0 <= n ==> (r <==> n * PPQN <= ToTicks(x) < (n + 1) * PPQN)
  {
    WithinWholeBeat(x, n);
    x.beats == n
  }

  lemma WithinWholeBeat(x: Beats, n: int)
    ensures IsNormal(x) && 0 <= n ==> (x.beats == n <==> n * PPQN <= ToTicks(x) < (n + 1) * PPQN)
  {
    assert (n + 1) * PPQN == n * PPQN + PPQN;
    var t := ToTicks(x);
    if IsNormal(x) && 0 <= n && n * PPQN <= t < (n + 1) * PPQN {
      DivModUnique(t, PPQN, n, t - n * PPQN);
      if 0 <= x.beats {
        DivModUnique(t, PPQN, x.beats, x.ticks);
      } else {
        BeatsTimesPpqnSign(n);
      }
    }
  }

  /** operator!() (beats.h:369): true of the zero pair; on normalised values,
      exactly when the total is zero. */
  function IsZero(x: Beats): (r: bool)
    ensures IsNormal(x) ==> (r <==> ToTicks(x) == 0)
  {
    BeatsTimesPpqnSign(x.beats);
    x.beats == 0 && x.ticks == 0
  }

  // ---------------------------------------------------------------------------
  // Factories and conversions (beats.h:84-103, 363-364, 371)
  // ---------------------------------------------------------------------------

  /** Beats::beats(n) (beats.h:85-87): n whole beats, already normalised. */
  function FromBeats(n: int): (r: Beats)
    ensures r == Beats(n, 0) && ToTicks(r) == n * PPQN
  {
    NormalizeFixesExactlyNormal(Beats(n, 0));
    Normalized(Beats(n, 0))
  }

  /** Beats::ticks(t) (beats.h:90-92): a non-negative count splits into whole
      beats and remaining ticks. */
  function FromTicks(t: int): (r: Beats)
    ensures IsNormal(r)
    ensures 0 <= t ==> r == Beats(t / PPQN, t % PPQN)
  {
    Normalized(Beats(0, t))
  }

  /** Beats::ticks(t) gives back t from to_ticks() exactly when t is
      non-negative or a whole number of beats. */
  lemma FromTicksRoundTrip(t: int)
    ensures ToTicks(FromTicks(t)) == t <==> 0 <= t || t % PPQN == 0
  {
    NormalizePreservesTicks(Beats(0, t));
  }

  /** The other round trip: a normalised value is rebuilt from its total
      exactly when it is non-negative or a whole number of beats. */
  lemma ToTicksRoundTrip(x: Beats)
    requires IsNormal(x)
    ensures FromTicks(ToTicks(x)) == x <==> 0 <= x.beats || x.ticks == 0
  {
    var t := ToTicks(x);
    if 0 <= x.beats {
      DivModUnique(t, PPQN, x.beats, x.ticks);
    } else {
      NormalizedTicks(Beats(0, t));
      if x.ticks == 0 {
        DivModUnique(t, PPQN, x.beats, 0);
        NormalTicksInjective(FromTicks(t), x);
      } else {
        assert (x.beats - 1) * PPQN == x.beats * PPQN - PPQN;
        DivModUnique(t, PPQN, x.beats - 1, x.ticks + PPQN);
      }
    }
  }

  /** Beats::tick() (beats.h:371): the smallest positive value, one tick. */
  function Tick(): (r: Beats)
    ensures IsNormal(r) && ToTicks(r) == 1
  {
    FromTicksRoundTrip(1);
    FromTicks(1)
  }

  /** Beats::ticks_at_rate(t, ppqn) (beats.h:101-103): whole beats by truncating
      division, the remainder rescaled from ppqn to PPQN with truncation. For a
      non-negative count this is t * PPQN / ppqn ticks, rounded down. */
  function TicksAtRate(t: int, ppqn: int): (r: Beats)
    requires 0 < ppqn < UINT32_MODULUS
    ensures IsNormal(r)
    ensures 0 <= t ==> 0 <= r.beats && ToTicks(r) == t * PPQN / ppqn
  {
    var b := TruncDiv(t, ppqn);
    var k := TruncDiv(TruncMod(t, ppqn) * PPQN, ppqn);
    RescaleRemainder(t, ppqn);
    NormalizeFixesExactlyNormal(Beats(b, k));
    Normalized(Beats(b, k))
  }

  lemma RescaleRemainder(t: int, ppqn: int)
    requires 0 < ppqn
    ensures var q, k := t / ppqn, t % ppqn * PPQN / ppqn;
      0 <= t ==> 0 <= q && 0 <= k < PPQN && q * PPQN + k == t * PPQN / ppqn
  {
    if 0 <= t {
      var q, m := t / ppqn, t % ppqn;
      var k, s := m * PPQN / ppqn, m * PPQN % ppqn;
      RemainderBelowOneBeat(m, ppqn);
      ScaleSplit(t, q, m, ppqn, k, s);
      DivModUnique(t * PPQN, ppqn, q * PPQN + k, s);
    }
  }

  lemma RemainderBelowOneBeat(m: int, ppqn: int)
    requires 0 <= m < ppqn
    ensures 0 <= m * PPQN / ppqn < PPQN
  {
    var k := m * PPQN / ppqn;
    MulMonotone(m + 1, ppqn, PPQN);
    if PPQN <= k {
      MulMonotone(PPQN, k, ppqn);
      assert false;
    }
  }

  lemma ScaleSplit(t: int, q: int, m: int, ppqn: int, k: int, s: int)
    requires t == q * ppqn + m && m * PPQN == k * ppqn + s
    ensures t * PPQN == (q * PPQN + k) * ppqn + s
  {
    calc {
      t * PPQN;
      (q * ppqn + m) * PPQN;
      q * ppqn * PPQN + m * PPQN;
      q * PPQN * ppqn + k * ppqn + s;
      (q * PPQN + k) * ppqn + s;
    }
  }

  /** ticks_at_rate at the native rate is Beats::ticks for non-negative counts. */
  lemma TicksAtRateNative(t: int)
    requires 0 <= t
    ensures TicksAtRate(t, PPQN) == FromTicks(t)
  {
    DivModUnique(t * PPQN, PPQN, t, 0);
    FromTicksRoundTrip(t);
    NormalTicksInjective(TicksAtRate(t, PPQN), FromTicks(t));
  }

  /** n ticks at a rate of n per beat are one beat. */
  lemma TicksAtRateOneBeat(n: int)
    requires 0 < n < UINT32_MODULUS
    ensures TicksAtRate(n, n) == Beats(1, 0)
  {
    DivModUnique(n * PPQN, n, PPQN, 0);
    NormalTicksInjective(TicksAtRate(n, n), Beats(1, 0));
  }

  /** to_ticks(ppqn) (beats.h:364) as compiled: _ticks * ppqn / PPQN is
      evaluated in unsigned 32-bit arithmetic, because an int32_t times a
      uint32_t is a uint32_t. For small non-negative ticks this is the rescaled
      total. */
  function ToTicksAt(x: Beats, ppqn: int): (r: int)
    requires 0 <= ppqn < UINT32_MODULUS
    ensures 0 <= x.ticks && x.ticks * ppqn < UINT32_MODULUS ==>
      r == x.beats * ppqn + x.ticks * ppqn / PPQN
  {
    UnwrappedProduct(x.ticks, ppqn);
    x.beats * ppqn + (x.ticks * ppqn % UINT32_MODULUS) / PPQN
  }

  /** to_ticks(PPQN) agrees with to_ticks() when the ticks are non-negative and
      their product with PPQN fits 32 bits. */
  lemma ToTicksAtNative(x: Beats)
    requires 0 <= x.ticks && x.ticks * PPQN < UINT32_MODULUS
    ensures ToTicksAt(x, PPQN) == ToTicks(x)
  {
    DivModUnique(x.ticks * PPQN, PPQN, x.ticks, 0);
  }

  /** For negative ticks the unsigned product wraps: minus one beat and one
      tick converts to a total above minus one beat instead of -(PPQN + 1). */
  lemma ToTicksAtNegativeTicks()
    ensures ToTicks(Beats(-1, -1)) == -PPQN - 1
    ensures ToTicksAt(Beats(-1, -1), PPQN) >= -PPQN
  {
    assert (-1) * PPQN % UINT32_MODULUS >= 0;
  }

  /** to_ticks(ppqn) with the signed, truncating arithmetic the conversion is
      meant to have: the same as ToTicksAt wherever that one does not wrap, and
      equal to to_ticks() at the native rate for every value. */
  function ToTicksAtSigned(x: Beats, ppqn: int): (r: int)
    requires 0 <= ppqn < UINT32_MODULUS
    ensures 0 <= x.ticks && x.ticks * ppqn < UINT32_MODULUS ==> r == ToTicksAt(x, ppqn)
  {
    UnwrappedProduct(x.ticks, ppqn);
    x.beats * ppqn + TruncDiv(x.ticks * ppqn, PPQN)
  }

  /** A product of non-negative ticks and rate below 2^32 does not wrap, and
      truncating division of it is floor division. */
  lemma UnwrappedProduct(t: int, ppqn: int)
    requires 0 <= ppqn
    ensures 0 <= t && t * ppqn < UINT32_MODULUS ==>
      t * ppqn % UINT32_MODULUS == t * ppqn && TruncDiv(t * ppqn, PPQN) == t * ppqn / PPQN
  {
    if 0 <= t && t * ppqn < UINT32_MODULUS {
      var product := t * ppqn;
      MulMonotone(0, t, ppqn);
      DivModUnique(product, UINT32_MODULUS, 0, product);
    }
  }

  lemma ToTicksAtSignedNative(x: Beats)
    ensures ToTicksAtSigned(x, PPQN) == ToTicks(x)
  {
    var a := Abs(x.ticks);
    DivModUnique(a * PPQN, PPQN, a, 0);
    if x.ticks < 0 {
      assert Abs(x.ticks * PPQN) == a * PPQN;
    }
  }

  // ---------------------------------------------------------------------------
  // Whole-beat rounding (beats.h:120-140)
  // ---------------------------------------------------------------------------

  /** round_to_beat() (beats.h:120-122): the next whole beat when ticks reach
      half a beat, else the current one. */
  function RoundToBeat(x: Beats): (r: Beats)
    ensures r.ticks == 0
    ensures r.beats == x.beats + 1 <==> PPQN / 2 <= x.ticks
    ensures r.beats == x.beats <==> x.ticks < PPQN / 2
  {
    if x.ticks >= PPQN / 2 then FromBeats(x.beats + 1) else FromBeats(x.beats)
  }

  /** For non-negative values round_to_beat() gives a whole beat at most
      PPQN - PPQN/2 ticks below the value and less than PPQN/2 ticks above it.
      With an odd PPQN the test ticks >= PPQN/2 rounds up some values that lie
      closer to the beat below. */
  lemma RoundToBeatIsNearest(x: Beats)
    requires IsNormal(x) && 0 <= x.beats
    ensures var r, t := ToTicks(RoundToBeat(x)), ToTicks(x);
      r % PPQN == 0 && r - (PPQN - PPQN / 2) <= t < r + PPQN / 2
  {
    var r := RoundToBeat(x);
    DivModUnique(ToTicks(r), PPQN, r.beats, 0);
    assert (x.beats + 1) * PPQN == x.beats * PPQN + PPQN;
  }

  /** With an even PPQN, round_to_beat() on a non-negative value is the
      nearest whole beat, the midpoint going up. */
  lemma RoundToBeatNearestEvenPpqn(x: Beats)
    requires IsNormal(x) && 0 <= x.beats && PPQN % 2 == 0
    ensures var r, t := ToTicks(RoundToBeat(x)), ToTicks(x);
      r % PPQN == 0 && 2 * (r - t) <= PPQN && 2 * (t - r) < PPQN
  {
    RoundToBeatIsNearest(x);
  }

  /** With an odd PPQN the rounding is not to the nearest beat: for PPQN = 3,
      one tick rounds up to the beat two ticks away. */
  lemma RoundToBeatOddPpqnExample()
    requires PPQN == 3
    ensures RoundToBeat(Beats(0, 1)) == Beats(1, 0)
    ensures ToTicks(Beats(0, 1)) - ToTicks(Beats(0, 0)) <
            ToTicks(Beats(1, 0)) - ToTicks(Beats(0, 1))
  {
  }

  /** round_up_to_beat() (beats.h:124-126): unchanged exactly when on a beat,
      else the next whole beat. */
  function RoundUpToBeat(x: Beats): (r: Beats)
    ensures r == x <==> x.ticks == 0
    ensures x.ticks != 0 ==> r == Beats(x.beats + 1, 0)
  {
    if x.ticks == 0 then x else FromBeats(x.beats + 1)
  }

  /** round_down_to_beat() (beats.h:128-130): drops the ticks. */
  function RoundDownToBeat(x: Beats): (r: Beats)
    ensures r == Beats(x.beats, 0)
    ensures IsNormal(x) && 0 <= x.beats ==> ToTicks(r) <= ToTicks(x) < ToTicks(r) + PPQN
  {
    assert (x.beats + 1) * PPQN == x.beats * PPQN + PPQN;
    FromBeats(x.beats)
  }

  /** For non-negative values round_up_to_beat() is the ceiling to a whole beat
      and round_down_to_beat() the floor. */
  lemma WholeBeatCeilingAndFloor(x: Beats)
    requires IsNormal(x) && 0 <= x.beats
    ensures var up, down, t := ToTicks(RoundUpToBeat(x)), ToTicks(RoundDownToBeat(x)), ToTicks(x);
      && up % PPQN == 0 && t <= up < t + PPQN
      && down % PPQN == 0 && down <= t < down + PPQN
  {
    var up, down := RoundUpToBeat(x), RoundDownToBeat(x);
    DivModUnique(ToTicks(up), PPQN, up.beats, 0);
    DivModUnique(ToTicks(down), PPQN, down.beats, 0);
    assert (x.beats + 1) * PPQN == x.beats * PPQN + PPQN;
  }

  /** For a negative value between whole beats both roundings move toward zero,
      since beats is the magnitude truncated: round_down_to_beat() goes up and
      round_up_to_beat() passes over the nearest whole beat above. */
  lemma WholeBeatRoundingOfNegatives(x: Beats)
    requires IsNormal(x) && x.beats < 0 && x.ticks != 0
    ensures ToTicks(x) < ToTicks(RoundDownToBeat(x))
    ensures ToTicks(RoundUpToBeat(x)) == ToTicks(RoundDownToBeat(x)) + PPQN
  {
    assert (x.beats + 1) * PPQN == x.beats * PPQN + PPQN;
  }

  /** prev_beat() (beats.h:132-135): the whole beat before the current beat,
      strictly earlier even when on a beat. */
  function PrevBeat(x: Beats): (r: Beats)
    ensures r == Beats(x.beats - 1, 0)
    ensures IsNormal(x) ==> ToTicks(r) < ToTicks(x)
  {
    assert (x.beats - 1) * PPQN == x.beats * PPQN - PPQN;
    FromBeats(x.beats - 1)
  }

  /** next_beat() (beats.h:137-140): the whole beat after the current beat,
      strictly later even when on a beat. */
  function NextBeat(x: Beats): (r: Beats)
    ensures r == Beats(x.beats + 1, 0)
    ensures IsNormal(x) ==> ToTicks(x) < ToTicks(r)
  {
    assert (x.beats + 1) * PPQN == x.beats * PPQN + PPQN;
    FromBeats(x.beats + 1)
  }

  // ---------------------------------------------------------------------------
  // Arithmetic (beats.h:300-360)
  // ---------------------------------------------------------------------------

  lemma PairTicksLinear(b1: int, t1: int, b2: int, t2: int)
    ensures ToTicks(Beats(b1 + b2, t1 + t2)) == ToTicks(Beats(b1, t1)) + ToTicks(Beats(b2, t2))
    ensures ToTicks(Beats(b1 - b2, t1 - t2)) == ToTicks(Beats(b1, t1)) - ToTicks(Beats(b2, t2))
  {
    assert (b1 + b2) * PPQN == b1 * PPQN + b2 * PPQN;
    assert (b1 - b2) * PPQN == b1 * PPQN - b2 * PPQN;
  }

  /** operator+(Beats) (beats.h:300-302): field-wise sum, normalised. Exact on
      normalised operands of the same sign. */
  function Add(a: Beats, b: Beats): (r: Beats)
    ensures IsNormal(r)
    ensures IsNormal(a) && IsNormal(b) && (0 <= a.beats <==> 0 <= b.beats) ==>
      ToTicks(r) == ToTicks(a) + ToTicks(b)
  {
    var s := Beats(a.beats + b.beats, a.ticks + b.ticks);
    PairTicksLinear(a.beats, a.ticks, b.beats, b.ticks);
    NormalizePreservesTicks(s);
    Normalized(s)
  }

  /** operator-(Beats) (beats.h:304-306): field-wise difference, normalised.
      Exact on normalised operands whenever a >= b. */
  function Sub(a: Beats, b: Beats): (r: Beats)
    ensures IsNormal(r)
    ensures IsNormal(a) && IsNormal(b) && GreaterEq(a, b) ==> ToTicks(r) == ToTicks(a) - ToTicks(b)
  {
    var s := Beats(a.beats - b.beats, a.ticks - b.ticks);
    PairTicksLinear(a.beats, a.ticks, b.beats, b.ticks);
    NormalizePreservesTicks(s);
    NormalOrder(b, a);
    Normalized(s)
  }

  /** Normalising a normalised pair whose beats are replaced by b. While the
      sign of beats is kept nothing changes. Going from non-negative to
      negative beats puts the sign on the ticks. Going from negative to
      positive beats borrows a beat for the negative ticks; going from
      negative beats to zero with negative ticks borrows, then re-applies the
      sign of the borrowed beat. */
  lemma ReplaceBeats(x: Beats, b: int)
    ensures IsNormal(x) && ((0 <= x.beats <==> 0 <= b) || x.ticks == 0) ==>
      Normalized(Beats(b, x.ticks)) == Beats(b, x.ticks)
    ensures IsNormal(x) && 0 <= x.beats && b < 0 ==>
      Normalized(Beats(b, x.ticks)) == Beats(b, -x.ticks)
    ensures IsNormal(x) && x.beats < 0 && 0 < b && x.ticks < 0 ==>
      Normalized(Beats(b, x.ticks)) == Beats(b - 1, x.ticks + PPQN)
    ensures IsNormal(x) && x.beats < 0 && b == 0 && x.ticks < 0 ==>
      Normalized(Beats(b, x.ticks)) == Beats(-1, -(x.ticks + PPQN))
  {
    var t := x.ticks;
    if IsNormal(x) {
      if (0 <= x.beats <==> 0 <= b) || t == 0 {
        NormalizeFixesExactlyNormal(Beats(b, t));
      } else if 0 <= x.beats {
        DivModUnique(t, PPQN, 0, t);
      } else {
        DivModUnique(t, PPQN, -1, t + PPQN);
        assert Borrow(b, t) == Beats(b - 1, t + PPQN);
        DivModUnique(t + PPQN, PPQN, 0, t + PPQN);
      }
    }
  }

  /** The total after replacing the beats of a normalised pair by b: exact,
      except when non-negative beats become negative (the ticks count
      backwards) and when negative beats with negative ticks become zero. */
  lemma ReplaceBeatsTicks(x: Beats, b: int)
    ensures var r, t := ToTicks(Normalized(Beats(b, x.ticks))), b * PPQN + x.ticks;
      && (IsNormal(x) && 0 <= x.beats && b < 0 ==> r == t - 2 * x.ticks)
      && (IsNormal(x) && !(0 <= x.beats && b < 0) ==>
            (r == t <==> !(x.beats < 0 && b == 0 && x.ticks < 0)))
      && (IsNormal(x) && x.beats < 0 && b == 0 && x.ticks < 0 ==> r == -2 * PPQN - x.ticks)
  {
    ReplaceBeats(x, b);
    assert (b - 1) * PPQN == b * PPQN - PPQN;
  }

  /** operator+(int) (beats.h:316-318): adds whole beats and normalises. While
      the sign of beats is kept the ticks are untouched and the total moves by
      n beats; a value that crosses zero moves by n beats except as
      ReplaceBeatsTicks states. */
  function AddBeats(x: Beats, n: int): (r: Beats)
    ensures IsNormal(r)
    ensures IsNormal(x) && (0 <= x.beats <==> 0 <= x.beats + n) ==>
      r == Beats(x.beats + n, x.ticks) && ToTicks(r) == ToTicks(x) + n * PPQN
    ensures IsNormal(x) && 0 <= x.beats && x.beats + n < 0 ==>
      r == Beats(x.beats + n, -x.ticks) && ToTicks(r) == ToTicks(x) + n * PPQN - 2 * x.ticks
    ensures IsNormal(x) && x.beats < 0 && 0 <= x.beats + n ==>
      (ToTicks(r) == ToTicks(x) + n * PPQN <==> !(x.beats + n == 0 && x.ticks < 0))
    ensures IsNormal(x) && x.beats < 0 && x.beats + n == 0 && x.ticks < 0 ==>
      r == Beats(-1, -(x.ticks + PPQN))
  {
    PairTicksLinear(x.beats, x.ticks, n, 0);
    ReplaceBeats(x, x.beats + n);
    ReplaceBeatsTicks(x, x.beats + n);
    Normalized(Beats(x.beats + n, x.ticks))
  }

  /** operator-(int) (beats.h:320-322): subtracts whole beats and normalises,
      with the same exceptions as AddBeats when the value crosses zero. */
  function SubBeats(x: Beats, n: int): (r: Beats)
    ensures IsNormal(r)
    ensures IsNormal(x) && (0 <= x.beats <==> 0 <= x.beats - n) ==>
      r == Beats(x.beats - n, x.ticks) && ToTicks(r) == ToTicks(x) - n * PPQN
    ensures IsNormal(x) && 0 <= x.beats && x.beats - n < 0 ==>
      r == Beats(x.beats - n, -x.ticks) && ToTicks(r) == ToTicks(x) - n * PPQN - 2 * x.ticks
    ensures IsNormal(x) && x.beats < 0 && 0 <= x.beats - n ==>
      (ToTicks(r) == ToTicks(x) - n * PPQN <==> !(x.beats - n == 0 && x.ticks < 0))
    ensures IsNormal(x) && x.beats < 0 && x.beats - n == 0 && x.ticks < 0 ==>
      r == Beats(-1, -(x.ticks + PPQN))
  {
    PairTicksLinear(x.beats, x.ticks, n, 0);
    ReplaceBeats(x, x.beats - n);
    ReplaceBeatsTicks(x, x.beats - n);
    Normalized(Beats(x.beats - n, x.ticks))
  }

  /** Crossing zero with whole beats: (0, 5) - 1 is (-1, -5), a total of
      -PPQN-5; and (-1, -5) + 1 is (-1, -(PPQN-5)), not (0, -5). */
  lemma WholeBeatsAcrossZeroExamples()
    requires 5 < PPQN
    ensures SubBeats(Beats(0, 5), 1) == Beats(-1, -5)
    ensures ToTicks(SubBeats(Beats(0, 5), 1)) == -PPQN - 5
    ensures AddBeats(Beats(-1, -5), 1) == Beats(-1, -(PPQN - 5))
  {
  }

  /** operator+=(int) leaves the pair as (beats + n, ticks) without
      normalising; that agrees with operator+(int) exactly when the pair is
      already normal. */
  lemma AddAssignIntSkipsNormalize(x: Beats, n: int)
    ensures Beats(x.beats + n, x.ticks) == AddBeats(x, n) <==> IsNormal(Beats(x.beats + n, x.ticks))
  {
    NormalizeFixesExactlyNormal(Beats(x.beats + n, x.ticks));
  }

  /** Unary operator-() (beats.h:334-336): negates both fields and normalises.
      It negates the total except for values strictly between zero and one
      beat: (0, t) becomes (-1, t-PPQN), a total of t-2*PPQN, which is
      2*(PPQN-t) ticks below -t. */
  function Negate(x: Beats): (r: Beats)
    ensures IsNormal(r)
    ensures IsNormal(x) ==> (ToTicks(r) == -ToTicks(x) <==> !(x.beats == 0 && 0 < x.ticks))
    ensures IsNormal(x) && x.beats == 0 && 0 < x.ticks ==> r == Beats(-1, x.ticks - PPQN)
  {
    NegateNormal(x);
    Normalized(Beats(-x.beats, -x.ticks))
  }

  lemma NegateNormal(x: Beats)
    ensures IsNormal(x) && x.beats == 0 && 0 < x.ticks ==>
      Normalized(Beats(-x.beats, -x.ticks)) == Beats(-1, x.ticks - PPQN)
    ensures IsNormal(x) && !(x.beats == 0 && 0 < x.ticks) ==>
      Normalized(Beats(-x.beats, -x.ticks)) == Beats(-x.beats, -x.ticks)
    ensures ToTicks(Beats(-x.beats, -x.ticks)) == -ToTicks(x)
  {
    assert (-x.beats) * PPQN == -(x.beats * PPQN);
    if IsNormal(x) {
      if x.beats == 0 && 0 < x.ticks {
        NegateWithinFirstBeat(x.ticks);
      } else {
        var s := Beats(-x.beats, -x.ticks);
        assert IsNormal(s);
        NormalizeFixesExactlyNormal(s);
      }
    }
  }

  lemma NegateWithinFirstBeat(t: int)
    requires 0 < t < PPQN
    ensures Normalized(Beats(0, -t)) == Beats(-1, t - PPQN)
  {
    DivModUnique(-t, PPQN, -1, PPQN - t);
    assert Borrow(0, -t) == Beats(-1, PPQN - t);
    DivModUnique(PPQN - t, PPQN, 0, PPQN - t);
  }

  /** x + (-x) is zero for a normalised x exactly when negation is exact:
      a value strictly between zero and one beat does not cancel. */
  lemma AddNegateCancels(x: Beats)
    requires IsNormal(x)
    ensures Add(x, Negate(x)) == Beats(0, 0) <==> !(x.beats == 0 && 0 < x.ticks)
  {
    var n := Beats(-x.beats, -x.ticks);
    if x.beats == 0 && 0 < x.ticks {
      assert Negate(x) == Beats(-1, x.ticks - PPQN);
      assert Add(x, Negate(x)).beats < 0;
    } else {
      assert IsNormal(n);
      NormalizeFixesExactlyNormal(n);
      NormalizeFixesExactlyNormal(Beats(0, 0));
    }
  }

  /** For non-negative normalised values, adding component-wise and
      normalising is adding the totals and rebuilding through Beats::ticks. */
  lemma AddIsSumOfTotals(x: Beats, y: Beats)
    requires IsNormal(x) && IsNormal(y) && 0 <= x.beats && 0 <= y.beats
    ensures Add(x, y) == FromTicks(ToTicks(x) + ToTicks(y))
  {
    var t := ToTicks(x) + ToTicks(y);
    FromTicksRoundTrip(t);
    NormalTicksInjective(Add(x, y), FromTicks(t));
  }

  /** For non-negative normalised values, x + y - y == x. */
  lemma AddThenSub(x: Beats, y: Beats)
    requires IsNormal(x) && IsNormal(y) && 0 <= x.beats && 0 <= y.beats
    ensures Sub(Add(x, y), y) == x
  {
    var s := Add(x, y);
    NormalOrder(y, s);
    if ToTicks(s) == ToTicks(y) {
      NormalTicksInjective(s, y);
    }
    NormalTicksInjective(Sub(s, y), x);
  }

  /** With operands of opposite signs, x + y - y == x fails: for x = (0, 5)
      and y = (-1, 0), x + y is (-1, -5) instead of a total of 5-PPQN, and
      subtracting y again gives (-1, -(PPQN-5)). */
  lemma AddThenSubMixedSignExample()
    requires 5 < PPQN
    ensures Add(Beats(0, 5), Beats(-1, 0)) == Beats(-1, -5)
    ensures Sub(Add(Beats(0, 5), Beats(-1, 0)), Beats(-1, 0)) == Beats(-1, -(PPQN - 5))
  {
    DivModUnique(5, PPQN, 0, 5);
    DivModUnique(-5, PPQN, -1, PPQN - 5);
    DivModUnique(PPQN - 5, PPQN, 0, PPQN - 5);
  }

  /** With two negative operands whose ticks carry, x + y - y == x fails as
      well: for x = y = (-1, -(PPQN-1)), x + y is (-3, -(PPQN-2)), exactly
      twice x, but subtracting y leaves the pair (-2, 1), which normalises to
      (-2, -1) instead of x. */
  lemma AddThenSubNegativeExample()
    requires 2 < PPQN
    ensures Add(Beats(-1, -(PPQN - 1)), Beats(-1, -(PPQN - 1))) == Beats(-3, -(PPQN - 2))
    ensures var x := Beats(-1, -(PPQN - 1)); Sub(Add(x, x), x) == Beats(-2, -1)
  {
    DivModUnique(2 * PPQN - 2, PPQN, 1, PPQN - 2);
    DivModUnique(1, PPQN, 0, 1);
  }

  /** For a non-negative total and a positive factor, truncating division is
      floor division and the quotient is non-negative. */
  lemma QuotientOfTotal(t: int, f: int)
    requires f != 0
    ensures 0 <= t && 0 < f ==> TruncDiv(t, f) == t / f && 0 <= t / f
  {
    if 0 <= t && 0 < f {
      DivModUnique(t, f, t / f, t % f);
      if t / f < 0 {
        MulMonotone(t / f, -1, f);
      }
    }
  }

  /** operator/ (beats.h:343-346) by a signed integer factor: the total
      _beats*PPQN+_ticks divided with C++ truncation, rebuilt through
      Beats::ticks. For a non-negative value and a positive factor it is the
      quotient of the total, rounded down. */
  function Div(x: Beats, f: int): (r: Beats)
    requires f != 0
    ensures IsNormal(r)
    ensures 0 <= ToTicks(x) && 0 < f ==> ToTicks(r) == ToTicks(x) / f
  {
    var q := TruncDiv(ToTicks(x), f);
    QuotientOfTotal(ToTicks(x), f);
    FromTicksRoundTrip(q);
    FromTicks(q)
  }

  // ---------------------------------------------------------------------------
  // Beats variables updated in place (beats.h:42, 45-73, 114-118, 324-332, 348-360)
  // ---------------------------------------------------------------------------

  /** A Beats object as the receiver of normalize(), assignment and the
      compound assignments, which update _beats and _ticks in place. */
  class BeatsVar {
    var beats: int
    var ticks: int

    function Value(): (v: Beats)
      reads this
    {
      Beats(beats, ticks)
    }

    /** Beats() (beats.h:42): zero. */
    constructor Zero()
      ensures Value() == Beats(0, 0)
    {
      beats, ticks := 0, 0;
    }

    /** Beats(b, t) (beats.h:71-73): store, then normalize. */
    constructor (b: int, t: int)
      ensures Value() == Normalized(Beats(b, t))
    {
      beats, ticks := b, t;
      new;
      Normalize();
    }

    /** normalize() (beats.h:45-68), with its two loops. */
    method Normalize()
      modifies this
      ensures Value() == Normalized(old(Value()))
    {
      if beats >= 0 {
        while ticks < 0
          invariant Borrow(beats, ticks) == Borrow(old(beats), old(ticks))
          decreases -ticks
        {
          beats := beats - 1;
          ticks := ticks + PPQN;
        }
      }
      ghost var s := Value();
      assert s == if 0 <= old(beats) then Borrow(old(beats), old(ticks)) else old(Value());
      var sign := if beats < 0 then -1 else 1;
      var b := Abs(beats);
      var t := Abs(ticks);
      while t >= PPQN
        invariant 0 <= t
        invariant Carry(b, t) == Carry(Abs(s.beats), Abs(s.ticks))
        decreases t
      {
        b := b + 1;
        t := t - PPQN;
      }
      beats := sign * b;
      ticks := sign * t;
    }

    /** operator=(const Beats&) (beats.h:114-118): copies both fields as they are. */
    method Assign(other: Beats)
      modifies this
      ensures Value() == other
    {
      beats, ticks := other.beats, other.ticks;
    }

    /** operator+=(Beats) (beats.h:348-353): the same value as operator+. */
    method AddAssign(other: Beats)
      modifies this
      ensures Value() == Add(old(Value()), other)
    {
      beats := beats + other.beats;
      ticks := ticks + other.ticks;
      Normalize();
    }

    /** operator-=(Beats) (beats.h:355-360): the same value as operator-. */
    method SubAssign(other: Beats)
      modifies this
      ensures Value() == Sub(old(Value()), other)
    {
      beats := beats - other.beats;
      ticks := ticks - other.ticks;
      Normalize();
    }

    /** operator+=(int) (beats.h:324-327): adds to beats only and does not
      normalise. */
    method AddAssignInt(n: int)
      modifies this
      ensures beats == old(beats) + n && ticks == old(ticks)
    {
      beats := beats + n;
    }

    /** operator-=(int) (beats.h:329-332): subtracts from beats only and does
      not normalise. */
    method SubAssignInt(n: int)
      modifies this
      ensures beats == old(beats) - n && ticks == old(ticks)
    {
      beats := beats - n;
    }
  }

  // ---------------------------------------------------------------------------
  // Quantisation (beats.h:142-232)
  // ---------------------------------------------------------------------------

  /** RoundMode, declared in types.h (not part of this model). The code only
      tests the sign of its value and compares with RoundUpMaybe and
      RoundDownAlways. */
  datatype RoundMode =
    RoundDownMaybe | RoundDownAlways | RoundNearest | RoundUpAlways | RoundUpMaybe
  {
    function Sign(): (s: int)
    {
      match this
      case RoundDownMaybe | RoundDownAlways => -1
      case RoundNearest => 0
      case RoundUpAlways | RoundUpMaybe => 1
    }
  }

  /** The grid lines around t: lo, the greatest at or below t, and its neighbours. */
  lemma GridLines(t: int, step: int, lo: int)
    requires 0 <= t && 0 < step && lo == t - t % step
    ensures 0 <= t % step <= t
    ensures lo % step == 0 && (lo + step) % step == 0 && (lo - step) % step == 0
    ensures 0 < lo ==> step <= lo
  {
    var q := t / step;
    MulMonotone(0, q, step);
    if 0 < q { MulMonotone(1, q, step); }
    DivModUnique(lo, step, q, 0);
    assert lo + step == (q + 1) * step;
    DivModUnique(lo + step, step, q + 1, 0);
    assert lo - step == (q - 1) * step;
    DivModUnique(lo - step, step, q - 1, 0);
  }

  lemma SubdivisionStep(subdivision: int)
    requires 0 < subdivision <= TicksPerBeat
    ensures 1 <= TicksPerBeat / subdivision <= TicksPerBeat
  {
    var q := TicksPerBeat / subdivision;
    assert TicksPerBeat == q * subdivision + TicksPerBeat % subdivision;
    MulMonotone(1, subdivision, q);
  }

  /** The grid line nearest to t on a grid of step ticks, a midpoint going to
      the line below. */
  function NearestGridLine(t: int, step: int): (u: int)
    requires 0 <= t && 0 < step
    ensures u % step == 0 && -step <= 2 * (u - t) < step
  {
    GridLines(t, step, t - t % step);
    var m := t % step;
    if 2 * m > step then t + step - m else t - m
  }

  /** The round-up branch of round_to_subdivision (beats.h:148-169), on the
      total t: the least grid line at or above t (RoundUpMaybe) or strictly
      above it (otherwise). It is not limited to the current beat. */
  method RoundUpTicks(t: int, step: int, dir: RoundMode) returns (ticks: int)
    requires 0 <= t && 0 < step
    ensures 0 <= ticks && ticks % step == 0
    ensures dir == RoundUpMaybe ==> t <= ticks < t + step
    ensures dir != RoundUpMaybe ==> t < ticks <= t + step
  {
    ticks := t;
    var mod := ticks % step;
    GridLines(t, step, t - mod);
    if mod == 0 && dir == RoundUpMaybe {
      // right on the subdivision: nothing to do
    } else if mod == 0 {
      ticks := ticks + step;
    } else {
      ticks := ticks + step - mod;
    }
  }

  /** The round-down branch of round_to_subdivision (beats.h:171-187), on the
      total t: the greatest grid line at or below t (RoundDownMaybe) or
      strictly below it (RoundDownAlways), except that RoundDownAlways at zero
      gives ticks_per_beat - 0 instead of going below zero. */
  method RoundDownTicks(t: int, step: int, dir: RoundMode) returns (ticks: int)
    requires 0 <= t && 0 < step
    ensures 0 <= ticks
    ensures dir != RoundDownAlways ==> ticks % step == 0 && t - step < ticks <= t
    ensures dir == RoundDownAlways && 0 < t ==> ticks % step == 0 && t - step <= ticks < t
    ensures dir == RoundDownAlways && t == 0 ==> ticks == TicksPerBeat
  {
    ticks := t;
    var difference := ticks % step;
    GridLines(t, step, t - difference);
    if difference == 0 && dir == RoundDownAlways {
      difference := step;
    }
    if ticks < difference {
      ticks := TicksPerBeat - ticks;
    } else {
      ticks := ticks - difference;
    }
  }

  /** The round-to-nearest branch of round_to_subdivision (beats.h:189-229),
      on the total t: the nearest grid line, a midpoint going down; when a
      forward shift lands beyond ticks_per_beat, one beat is taken off the
      total and the ++beats that was meant to carry it is never used. */
  method RoundNearestTicks(t: int, step: int) returns (ticks: int)
    requires 0 <= t && 0 < step
    ensures 0 <= ticks
    ensures var u := NearestGridLine(t, step);
      ticks == if t < u && TicksPerBeat < u then u - TicksPerBeat else u
  {
    ticks := t;
    // fmod and lrint act on integer-valued doubles here: integer % is exact.
    var rem := ticks % step;
    GridLines(t, step, t - rem);
    if 2 * rem > step {
      ticks := ticks + (step - rem);
      if ticks > TicksPerBeat {
        ticks := ticks - TicksPerBeat;
      }
    } else if rem > 0 {
      // The step back across a beat (beats.h:213-221) needs rem > ticks,
      // which a non-negative total never gives.
      assert rem <= ticks;
      ticks := ticks - rem;
    }
  }

  /** round_to_subdivision(subdivision, dir) (beats.h:142-232) on a
      non-negative total t, with a grid of step = ticks_per_beat / subdivision
      ticks counted from zero. The result is rebuilt from ticks alone through
      Beats::ticks; the local copy of _beats (beats.h:146) never reaches it. */
  method RoundToSubdivision(x: Beats, subdivision: int, dir: RoundMode) returns (r: Beats)
    requires 0 < subdivision <= TicksPerBeat
    requires 0 <= ToTicks(x) && ToTicks(x) + TicksPerBeat / subdivision <= INT32_MAX
    ensures IsNormal(r) && 0 <= ToTicks(r)
    ensures var t, step := ToTicks(x), TicksPerBeat / subdivision;
      && (dir == RoundUpMaybe ==> ToTicks(r) % step == 0 && t <= ToTicks(r) < t + step)
      && (dir == RoundUpAlways ==> ToTicks(r) % step == 0 && t < ToTicks(r) <= t + step)
      && (dir == RoundDownMaybe ==> ToTicks(r) % step == 0 && t - step < ToTicks(r) <= t)
      && (dir == RoundDownAlways && 0 < t ==> ToTicks(r) % step == 0 && t - step <= ToTicks(r) < t)
      && (dir == RoundDownAlways && t == 0 ==> r == Beats(1, 0))
      && (dir == RoundNearest ==>
            var u := NearestGridLine(t, step);
            ToTicks(r) == if t < u && TicksPerBeat < u then u - TicksPerBeat else u)
  {
    var ticks := ToTicks(x);
    var step := TicksPerBeat / subdivision;
    SubdivisionStep(subdivision);
    if dir.Sign() > 0 {
      ticks := RoundUpTicks(ticks, step, dir);
    } else if dir.Sign() < 0 {
      ticks := RoundDownTicks(ticks, step, dir);
    } else {
      ticks := RoundNearestTicks(ticks, step);
    }
    FromTicksRoundTrip(ticks);
    r := FromTicks(ticks);
    if ticks == TicksPerBeat {
      DivModUnique(ticks, PPQN, 1, 0);
    }
  }
}
