/** NTP calibration of the monotonic clock (monotonic-clock.js): reading a server's timestamps, the offset
    formula, the median of several answers and the anchor they set. Times are real numbers of
    milliseconds; sockets and timeouts are left out, so a server that does not answer is None. */
module NtpClock {
  import opened Tables
  import Digits

  const NTP_EPOCH_OFFSET_MS := 2208988800000
  const TWO_32 := 0x1_0000_0000

  // ---- timestamps ------------------------------------------------------------------------

  function ReadUInt32BE(buf: seq<nat>, offset: nat): nat
    requires offset + 4 <= |buf|
  {
    Digits.Value(256, buf[offset..offset + 4])
  }

  /** Seconds and a binary fraction; the milliseconds are rounded down. */
  function NtpTimestampToMs(buf: seq<nat>, offset: nat): int
    requires offset + 8 <= |buf|
  {
    ReadUInt32BE(buf, offset) * 1000 + ReadUInt32BE(buf, offset + 4) * 1000 / TWO_32 - NTP_EPOCH_OFFSET_MS
  }

  /** The seconds and the fraction an exact server writes for a Unix time: the seconds wrap every 2^32, the
      fraction is cut to 32 bits (sections 3 and 4 of RFC 4330). */
  function NtpSeconds(t: real): int {
    (t / 1000.0).Floor + NTP_EPOCH_OFFSET_MS / 1000
  }

  function NtpFraction(t: real): int {
    ((t - (t / 1000.0).Floor as real * 1000.0) * TWO_32 as real / 1000.0).Floor
  }

  function NtpTimestamp(t: real): seq<nat>
    requires NtpSeconds(t) >= 0
  {
    FractionFits(t);
    Digits.Written(256, NtpSeconds(t) % TWO_32, 4) + Digits.Written(256, NtpFraction(t), 4)
  }

  lemma FractionFits(t: real)
    ensures 0 <= NtpFraction(t) < TWO_32
  {
    var q := t / 1000.0;
    var rest := t - q.Floor as real * 1000.0;
    assert 0.0 <= q - q.Floor as real < 1.0;
    assert rest == (q - q.Floor as real) * 1000.0;
    var scaled := rest * TWO_32 as real / 1000.0;
    assert scaled == (q - q.Floor as real) * TWO_32 as real;
    assert 0.0 <= scaled < TWO_32 as real;
  }

  lemma FourBytes()
    ensures Digits.Pow(256, 4) == TWO_32
  {
    assert Digits.Pow(256, 2) == 65536;
    Digits.PowerOfSum(256, 2, 2);
  }

  lemma TimestampReadsBack(t: real)
    requires NtpSeconds(t) >= 0
    ensures |NtpTimestamp(t)| == 8
    ensures NtpTimestampToMs(NtpTimestamp(t), 0)
         == NtpSeconds(t) % TWO_32 * 1000 + NtpFraction(t) * 1000 / TWO_32 - NTP_EPOCH_OFFSET_MS
  {
    FourBytes();
    FractionFits(t);
    var seconds, fraction := NtpSeconds(t) % TWO_32, NtpFraction(t);
    Digits.WrittenReadsBack(256, seconds, 4);
    Digits.WrittenReadsBack(256, fraction, 4);
    var buf := NtpTimestamp(t);
    assert buf[0..4] == Digits.Written(256, seconds, 4) && buf[4..8] == Digits.Written(256, fraction, 4);
  }

  /** What truncation can take away: a millisecond, and the 32-bit fraction's last bit. */
  const TRUNCATION := 1.0 + 1000.0 / TWO_32 as real

  lemma TruncationIsSmall(t: real)
    requires NtpSeconds(t) >= 0
    ensures var ms := NtpSeconds(t) * 1000 + NtpFraction(t) * 1000 / TWO_32 - NTP_EPOCH_OFFSET_MS;
      t - TRUNCATION < ms as real <= t
  {
    FractionFits(t);
    var q := t / 1000.0;
    var rest := t - q.Floor as real * 1000.0;
    var f := NtpFraction(t);
    var scaled := rest * TWO_32 as real / 1000.0;
    assert f as real <= scaled < f as real + 1.0;
    assert f as real * 1000.0 <= rest * TWO_32 as real < f as real * 1000.0 + 1000.0;
    var ms := f * 1000 / TWO_32;
    assert ms * TWO_32 <= f * 1000 < ms * TWO_32 + TWO_32;
    assert (ms * TWO_32) as real == ms as real * TWO_32 as real;
    assert (f * 1000) as real == f as real * 1000.0;
    assert ms as real * TWO_32 as real <= rest * TWO_32 as real;
    assert rest * TWO_32 as real < ms as real * TWO_32 as real + TWO_32 as real + 1000.0;
    assert NtpSeconds(t) * 1000 - NTP_EPOCH_OFFSET_MS == q.Floor * 1000;
  }

  /** A server's timestamp is read as its time, less the truncation, exactly until the 32-bit seconds wrap
      in 2036; from then on it is read 2^32 seconds too early, for each time they have wrapped. */
  lemma TimestampIsAccurateIff(t: real)
    requires NtpSeconds(t) >= 0
    ensures |NtpTimestamp(t)| == 8
    ensures t - TRUNCATION < NtpTimestampToMs(NtpTimestamp(t), 0) as real <= t <==> NtpSeconds(t) < TWO_32
  {
    hide NtpTimestamp, NtpTimestampToMs, NtpSeconds, NtpFraction;
    TimestampReadsBack(t);
    TruncationIsSmall(t);
    WrappedSeconds(NtpSeconds(t), NtpFraction(t) * 1000 / TWO_32 - NTP_EPOCH_OFFSET_MS, t);
  }

  lemma WrappedSeconds(s: nat, rest: int, t: real)
    requires t - TRUNCATION < (s * 1000 + rest) as real <= t
    ensures t - TRUNCATION < (s % TWO_32 * 1000 + rest) as real <= t <==> s < TWO_32
  {
    if s >= TWO_32 {
      assert s % TWO_32 <= s - TWO_32;
      assert (s % TWO_32 * 1000 + rest) as real <= (s * 1000 + rest) as real - 1000.0 * TWO_32 as real;
    }
  }

  // ---- one query -------------------------------------------------------------------------

  /** The estimate of the time at receipt, from a reply of at least 48 bytes; a reply that is not a
      server's, or of stratum 0, gives none. */
  function Estimate(reply: seq<nat>, t0: real, t3: real): Option<real>
    requires |reply| >= 48
  {
    if reply[0] % 8 != 4 || reply[1] == 0 then None
    else
      var t1 := NtpTimestampToMs(reply, 32) as real;
      var t2 := NtpTimestampToMs(reply, 40) as real;
      Some(t3 + ((t1 - t0) + (t2 - t3)) / 2.0)
  }

  /** Exactly the replies in server mode and of some stratum give an estimate: the local time of receipt
      corrected by half the sum of the two differences, from the timestamps at bytes 32 and 40. */
  lemma EstimateIff(reply: seq<nat>, t0: real, t3: real)
    requires |reply| >= 48
    ensures Estimate(reply, t0, t3).Some? <==> reply[0] % 8 == 4 && reply[1] != 0
    ensures Estimate(reply, t0, t3).Some? ==>
      var out := NtpTimestampToMs(reply, 32) as real - t0; var back := t3 - NtpTimestampToMs(reply, 40) as real;
      Estimate(reply, t0, t3).value == t3 + (out - back) / 2.0
  {
  }

  /** A reply of an exact server that was reached at one time and answered at another. */
  ghost predicate ExactReply(reply: seq<nat>, reached: real, answered: real) {
    && |reply| >= 48 && reply[0] % 8 == 4 && reply[1] != 0
    && 0 <= NtpSeconds(reached) < TWO_32 && 0 <= NtpSeconds(answered) < TWO_32
    && reply[32..40] == NtpTimestamp(reached) && reply[40..48] == NtpTimestamp(answered)
  }

  lemma TimestampAt(reply: seq<nat>, offset: nat, t: real)
    requires offset + 8 <= |reply| && 0 <= NtpSeconds(t) < TWO_32 && reply[offset..offset + 8] == NtpTimestamp(t)
    ensures t - TRUNCATION < NtpTimestampToMs(reply, offset) as real <= t
  {
    TimestampIsAccurateIff(t);
    var buf := NtpTimestamp(t);
    assert reply[offset..offset + 4] == buf[0..4] && reply[offset + 4..offset + 8] == buf[4..8];
  }

  /** With an exact server and path delays that are not negative, the estimate at receipt is early by at
      most half the return delay and the truncation, and late by at most half the delay out, so off by at
      most half the round trip plus the truncation; whatever the local clock's own error, which cancels. */
  lemma EstimateIsWithinHalfTheDelay(reply: seq<nat>, sent: real, reached: real, answered: real, received: real, skew: real)
    requires sent <= reached <= answered <= received && ExactReply(reply, reached, answered)
    ensures Estimate(reply, sent + skew, received + skew).Some?
    ensures var error := Estimate(reply, sent + skew, received + skew).value - received;
      -(received - answered) / 2.0 - TRUNCATION < error <= (reached - sent) / 2.0
    ensures var error := Estimate(reply, sent + skew, received + skew).value - received;
      var roundTrip := (reached - sent) + (received - answered);
      -roundTrip / 2.0 - TRUNCATION < error <= roundTrip / 2.0
  {
    TimestampAt(reply, 32, reached);
    TimestampAt(reply, 40, answered);
  }

  // ---- the median ------------------------------------------------------------------------

  function Insert(x: real, s: seq<real>): seq<real> {
    if s == [] || x <= s[0] then [x] + s else [s[0]] + Insert(x, s[1..])
  }

  function Sort(s: seq<real>): (r: seq<real>)
    ensures |r| == |s|
  {
    if s == [] then [] else
      var r := Insert(s[0], Sort(s[1..]));
      InsertedCount(s[0], Sort(s[1..]), s[0], s[0]);
      r
  }

  predicate Ascending(s: seq<real>) {
    forall i, j :: 0 <= i < j < |s| ==> s[i] <= s[j]
  }

  function Inside(s: seq<real>, lo: real, hi: real): nat {
    if s == [] then 0 else (if lo <= s[0] <= hi then 1 else 0) + Inside(s[1..], lo, hi)
  }

  lemma {:induction false} InsertedCount(x: real, s: seq<real>, lo: real, hi: real)
    ensures |Insert(x, s)| == |s| + 1
    ensures Inside(Insert(x, s), lo, hi) == Inside(s, lo, hi) + (if lo <= x <= hi then 1 else 0)
    ensures forall y :: y in Insert(x, s) ==> y == x || y in s
  {
    if s == [] || x <= s[0] {
      assert ([x] + s)[1..] == s;
    } else {
      InsertedCount(x, s[1..], lo, hi);
      assert Insert(x, s)[1..] == Insert(x, s[1..]);
    }
  }

  lemma {:induction false} InsertKeepsOrder(x: real, s: seq<real>)
    requires Ascending(s)
    ensures Ascending(Insert(x, s))
  {
    if s != [] && x > s[0] {
      InsertKeepsOrder(x, s[1..]);
      InsertedCount(x, s[1..], x, x);
      var rest := Insert(x, s[1..]);
      forall j | 0 <= j < |rest| ensures s[0] <= rest[j] {
        assert rest[j] in rest;
      }
    }
  }

  /** Sorting orders the answers and keeps as many of them in any interval. */
  lemma {:induction false} SortedIsOrdered(s: seq<real>, lo: real, hi: real)
    ensures Ascending(Sort(s))
    ensures Inside(Sort(s), lo, hi) == Inside(s, lo, hi)
  {
    if s != [] {
      SortedIsOrdered(s[1..], lo, hi);
      InsertKeepsOrder(s[0], Sort(s[1..]));
      InsertedCount(s[0], Sort(s[1..]), lo, hi);
    }
  }

  /** The middle answer, or the mean of the two middle ones rounded down. */
  function Median(valid: seq<real>): real
    requires valid != []
  {
    var s := Sort(valid);
    var mid := |s| / 2;
    if |s| % 2 == 0 then ((s[mid - 1] + s[mid]) / 2.0).Floor as real else s[mid]
  }

  lemma {:induction false} InsertedItems(x: real, s: seq<real>)
    ensures multiset(Insert(x, s)) == multiset(s) + multiset{x}
  {
    if s == [] || x <= s[0] {
    } else {
      InsertedItems(x, s[1..]);
      assert s == [s[0]] + s[1..];
    }
  }

  lemma {:induction false} SortedItems(s: seq<real>)
    ensures multiset(Sort(s)) == multiset(s)
  {
    if s != [] {
      SortedItems(s[1..]);
      InsertedItems(s[0], Sort(s[1..]));
      assert s == [s[0]] + s[1..];
    }
  }

  /** The median is the middle one of the answers put in order, or of an even number the mean of the two
      middle ones without its fraction. */
  lemma MedianIs(valid: seq<real>) returns (ordered: seq<real>)
    requires valid != []
    ensures Ascending(ordered) && multiset(ordered) == multiset(valid) && |ordered| == |valid|
    ensures var half := |valid| / 2;
      Median(valid) == if |valid| % 2 == 1 then ordered[half]
                       else ((ordered[half - 1] + ordered[half]) / 2.0).Floor as real
  {
    hide Ascending;
    ordered := Sort(valid);
    SortedIsOrdered(valid, 0.0, 0.0);
    SortedItems(valid);
  }

  lemma {:induction false} NoneInside(s: seq<real>, lo: real, hi: real)
    requires forall x :: x in s ==> !(lo <= x <= hi)
    ensures Inside(s, lo, hi) == 0
  {
    if s != [] {
      assert s[0] in s && forall x :: x in s[1..] ==> x in s;
      NoneInside(s[1..], lo, hi);
    }
  }

  lemma {:induction false} InsideSplits(a: seq<real>, b: seq<real>, lo: real, hi: real)
    ensures Inside(a + b, lo, hi) == Inside(a, lo, hi) + Inside(b, lo, hi)
    ensures Inside(a, lo, hi) <= |a|
  {
    if a == [] {
      assert a + b == b;
    } else {
      assert (a + b)[1..] == a[1..] + b;
      InsideSplits(a[1..], b, lo, hi);
    }
  }

  /** In an ordered list, an element outside an interval leaves at most its own side's rest inside it. */
  lemma OrderedBelow(s: seq<real>, lo: real, hi: real, k: nat)
    requires Ascending(s) && k < |s| && s[k] < lo
    ensures Inside(s, lo, hi) <= |s| - (k + 1)
  {
    hide Inside;
    var front, rest := s[..k + 1], s[k + 1..];
    assert s == front + rest && rest + [] == rest;
    InsideSplits(front, rest, lo, hi);
    InsideSplits(rest, [], lo, hi);
    NoneInside(front, lo, hi);
  }

  lemma OrderedAbove(s: seq<real>, lo: real, hi: real, k: nat)
    requires Ascending(s) && k < |s| && s[k] > hi
    ensures Inside(s, lo, hi) <= k
  {
    hide Inside;
    var front, rest := s[..k], s[k..];
    assert s == front + rest;
    InsideSplits(front, rest, lo, hi);
    NoneInside(rest, lo, hi);
  }

  lemma MajorityHolds(s: seq<real>, lo: real, hi: real, k: nat)
    requires Ascending(s) && k < |s| && |s| - (k + 1) < Inside(s, lo, hi) && k < Inside(s, lo, hi)
    ensures lo <= s[k] <= hi
  {
    if s[k] < lo {
      OrderedBelow(s, lo, hi, k);
    } else if s[k] > hi {
      OrderedAbove(s, lo, hi, k);
    }
  }

  /** If more than half of the valid answers lie in an interval, so does the median, up to the rounding. */
  lemma MajorityBindsTheMedian(valid: seq<real>, lo: real, hi: real)
    requires 2 * Inside(valid, lo, hi) > |valid|
    ensures valid != []
    ensures lo - 1.0 < Median(valid) <= hi
    ensures |valid| % 2 == 1 ==> lo <= Median(valid)
  {
    var s := Sort(valid);
    var mid := |s| / 2;
    SortedIsOrdered(valid, lo, hi);
    MajorityHolds(s, lo, hi, mid);
    if |s| % 2 == 0 {
      MajorityHolds(s, lo, hi, mid - 1);
    }
  }

  // ---- the calibrated clock --------------------------------------------------------------

  function Valid(answers: seq<Option<real>>): seq<real> {
    if answers == [] then []
    else Valid(answers[..|answers| - 1]) + if answers[|answers| - 1].Some? then [answers[|answers| - 1].value] else []
  }

  /** The valid answers are those there are, each as often as it was given. */
  lemma {:induction false} ValidAre(answers: seq<Option<real>>, x: real)
    ensures multiset(Valid(answers))[x] == multiset(answers)[Some(x)]
  {
    if answers != [] {
      var front, last := answers[..|answers| - 1], answers[|answers| - 1];
      ValidAre(front, x);
      assert answers == front + [last];
    }
  }

  /** An answer that came from a good server: at most `early` before and `late` after the true time, when it
      was received; and it was received at most `wait` before the calibration. */
  predicate GoodAnswer(a: real, received: real, calibrated: real, early: real, late: real, wait: real) {
    -early <= a - received <= late && calibrated - wait <= received <= calibrated
  }

  /** How many of the valid answers are good, each received at its own time. */
  function GoodAnswers(valid: seq<real>, received: seq<real>, calibrated: real, early: real, late: real, wait: real): nat
    requires |valid| == |received|
  {
    if valid == [] then 0
    else (if GoodAnswer(valid[0], received[0], calibrated, early, late, wait) then 1 else 0)
         + GoodAnswers(valid[1..], received[1..], calibrated, early, late, wait)
  }

  lemma {:induction false} GoodAnswersAreNear(valid: seq<real>, received: seq<real>, calibrated: real,
                                              early: real, late: real, wait: real)
    requires |valid| == |received|
    ensures GoodAnswers(valid, received, calibrated, early, late, wait)
         <= Inside(valid, calibrated - wait - early, calibrated + late)
  {
    if valid != [] {
      GoodAnswersAreNear(valid[1..], received[1..], calibrated, early, late, wait);
    }
  }

  class MonotonicClock {
    var anchor: real

    constructor (start: real)
      ensures anchor == start
    {
      anchor := start;
    }

    /** `elapsed` is what the high-resolution timer has counted since the process started. */
    function MonotonicMs(elapsed: real): real
      reads this
    {
      anchor + elapsed
    }

    /** The answers are in when the slowest server has answered or timed out; the anchor is set so that the
        clock then reads the median. Without an answer the clock is left as it was. */
    method CalibrateFromNtp(answers: seq<Option<real>>, elapsed: real) returns (ok: bool)
      modifies this
      ensures ok <==> Valid(answers) != []
      ensures ok ==> MonotonicMs(elapsed) == Median(Valid(answers))
      ensures !ok ==> anchor == old(anchor)
    {
      var valid: seq<real> := [];
      for i := 0 to |answers|
        invariant valid == Valid(answers[..i]) && anchor == old(anchor)
      {
        assert answers[..i + 1][..i] == answers[..i];
        if answers[i].Some? {
          valid := valid + [answers[i].value];
        }
      }
      assert answers[..|answers|] == answers;
      if valid == [] {
        return false;
      }
      anchor := Median(valid) - elapsed;
      return true;
    }
  }

  /** From a calibration in which more than half of the valid answers are good, the clock is late by no
      more than those answers, and early by no more than those answers, the wait for the slowest server
      and a millisecond; at the calibration and at every later moment. */
  lemma CalibratedClockIsBound(valid: seq<real>, received: seq<real>, calibrated: real, early: real, late: real, wait: real,
                               anchor: real, elapsed: real, later: real)
    requires |valid| == |received| && 2 * GoodAnswers(valid, received, calibrated, early, late, wait) > |valid|
    requires anchor + elapsed == Median(valid)
    ensures -(wait + early) - 1.0 < (anchor + (elapsed + later)) - (calibrated + later) <= late
  {
    GoodAnswersAreNear(valid, received, calibrated, early, late, wait);
    MajorityBindsTheMedian(valid, calibrated - wait - early, calibrated + late);
  }

  /** The wait is really lost: beside one exact answer, a server that times out sets the clock back by as
      long as it was waited for. */
  lemma WaitingSetsTheClockBack(received: real, wait: real)
    requires wait >= 0.0
    ensures Valid([Some(received), None]) == [received]
    ensures Median([received]) - (received + wait) == -wait
  {
    var answers := [Some(received), None];
    var first := answers[..1];
    assert first == [Some(received)] && first[..0] == [];
    assert Valid(first) == [] + [received];
    assert Valid(answers) == Valid(first) + [];
    assert Sort([received]) == [received];
  }
}
