/**
 * ROS timestamps (frost/src/util/time.rs): two unsigned 32-bit halves, ordered
 * by the total number of nanoseconds they denote.
 */
module RosTime {
  import opened Wrappers
  import opened Errors
  import opened Bytes
  import opened Parsing

  const NanosPerSec: nat := 1_000_000_000

  /** A timestamp; `nsecs` is not required to be below one second. */
  datatype Time = Time(secs: u32, nsecs: u32)

  /** The result of comparing two values. */
  datatype Ordering = Less | Equal | Greater

  const MIN: Time := Time(0, 1)
  const MAX: Time := Time(0xFFFF_FFFF, 999_999_999)
  const ZERO: Time := Time(0, 0)

  /** The nanoseconds of the `Duration` a time converts to (`From<Time> for Duration`). */
  function Nanos(t: Time): nat {
    t.secs * NanosPerSec + t.nsecs
  }

  function CompareNat(x: nat, y: nat): Ordering {
    if x < y then Less else if x == y then Equal else Greater
  }

  /** `Ord::cmp`: compares the durations the two times convert to. */
  function Cmp(a: Time, b: Time): (r: Ordering)
    ensures r == Less <==> Nanos(a) < Nanos(b)
    ensures r == Equal <==> Nanos(a) == Nanos(b)
    ensures r == Greater <==> Nanos(a) > Nanos(b)
  {
    CompareNat(Nanos(a), Nanos(b))
  }

  /** `a <= b` under `Ord`. */
  predicate Le(a: Time, b: Time) {
    Cmp(a, b) != Greater
  }

  /** A time whose nanosecond part is a proper fraction of a second. */
  predicate Normalized(t: Time) {
    t.nsecs < NanosPerSec
  }

  /** `Time::from`: seconds at bytes 0..4, nanoseconds at bytes 4..8. */
  function FromBytes(buf: seq<byte>): (r: Result<Time, ParseError>)
    ensures r.Ok? <==> |buf| >= 8
    ensures r.Ok? ==> r.value.secs == LeValue(buf[..4]) && r.value.nsecs == LeValue(buf[4..8])
    ensures r.Err? ==> r.error == BufferTooSmall
  {
    var secs :- ParseLeU32(buf);
    var nsecs :- ParseLeU32At(buf, 4);
    LeValue4(buf[4..8]);
    Ok(Time(secs, nsecs))
  }

  /** The eight bytes a time is stored as in a bag. */
  function Encode(t: Time): (r: seq<byte>)
    ensures |r| == 8
  {
    LeBytes(t.secs, 4) + LeBytes(t.nsecs, 4)
  }

  /**
   * `Time::dur`: `self - other` as a duration in nanoseconds; `None` where the
   * subtraction of `Duration`s panics because `other` is later.
   */
  function Dur(a: Time, b: Time): (r: Option<nat>)
    ensures r.Some? <==> Le(b, a)
    ensures r.Some? ==> Nanos(b) + r.value == Nanos(a)
  {
    if Nanos(a) >= Nanos(b) then Some(Nanos(a) - Nanos(b)) else None
  }

  /** Reading back the stored bytes of a time returns that time. */
  lemma FromBytesRoundTrip(t: Time, rest: seq<byte>)
    ensures FromBytes(Encode(t) + rest) == Ok(t)
  {
    var buf := Encode(t) + rest;
    assert buf[..4] == LeBytes(t.secs, 4);
    assert buf[4..8] == LeBytes(t.nsecs, 4);
    assert Pow256(4) == 0x1_0000_0000;
    LeValueOfLeBytes(t.secs, 4);
    LeValueOfLeBytes(t.nsecs, 4);
  }

  /** `Ord` is a total preorder: reflexive, antisymmetric in its answers and transitive. */
  lemma CmpIsTotalPreorder(a: Time, b: Time, c: Time)
    ensures Cmp(a, a) == Equal
    ensures Cmp(a, b) == Less <==> Cmp(b, a) == Greater
    ensures Cmp(a, b) == Equal <==> Cmp(b, a) == Equal
    ensures Le(a, b) && Le(b, c) ==> Le(a, c)
    ensures Le(a, b) || Le(b, a)
  {
  }

  /** Field-wise equality (`PartialEq`) implies `Ord` equality. */
  lemma EqImpliesCmpEqual(a: Time, b: Time)
    requires a == b
    ensures Cmp(a, b) == Equal
  {
  }

  /**
   * The converse fails for times with an unnormalized nanosecond part: one
   * second and a billion nanoseconds compare equal but are different values.
   */
  lemma CmpEqualDoesNotImplyEq()
    ensures Cmp(Time(1, 0), Time(0, 1_000_000_000)) == Equal
    ensures Time(1, 0) != Time(0, 1_000_000_000)
  {
  }

  lemma MulMonotone(x: nat, y: nat)
    requires x < y
    ensures x * NanosPerSec + NanosPerSec <= y * NanosPerSec
  {
    assert (y - x) * NanosPerSec >= NanosPerSec;
  }

  /** On normalized times `Ord` is the lexicographic order on (secs, nsecs). */
  lemma CmpIsLexicographic(a: Time, b: Time)
    requires Normalized(a) && Normalized(b)
    ensures Cmp(a, b) == Less <==> a.secs < b.secs || (a.secs == b.secs && a.nsecs < b.nsecs)
    ensures Cmp(a, b) == Equal <==> a == b
  {
    if a.secs < b.secs {
      MulMonotone(a.secs, b.secs);
    } else if b.secs < a.secs {
      MulMonotone(b.secs, a.secs);
    }
  }

  /** `ZERO` is the least time, `MIN` is later than it, and `MAX` bounds every normalized time. */
  lemma Bounds(t: Time)
    ensures Le(ZERO, t)
    ensures Cmp(ZERO, MIN) == Less
    ensures Normalized(t) ==> Le(t, MAX)
  {
    if Normalized(t) {
      if t.secs < MAX.secs {
        MulMonotone(t.secs, MAX.secs);
      }
    }
  }

  /** `dur` of a time with itself is zero, and `dur` is exact where it is defined. */
  lemma DurProperties(a: Time, b: Time, c: Time)
    ensures Dur(a, a) == Some(0)
    ensures Dur(a, b).Some? && Dur(b, c).Some? ==> Dur(a, c) == Some(Dur(a, b).value + Dur(b, c).value)
    ensures Dur(a, b).Some? && Dur(b, a).Some? ==> Cmp(a, b) == Equal
  {
  }
}
