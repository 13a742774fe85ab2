/**
 * The bias between local time and UTC, from the two broken-down times of one
 * instant, and the file time conversions that apply it (APITime.cpp).
 */
module LocalTime {
  import opened Calendar

  // The fields of struct tm that are used; year in full.
  datatype Tm = Tm(year: int, yday: nat, hour: nat, min: nat, sec: nat)

  // sec may be 60 or 61 for a leap second.
  ghost predicate IsBroken(t: Tm) {
    1601 <= t.year && t.yday < YearLength(t.year) && t.hour <= 23 && t.min <= 59 && t.sec <= 61
  }

  function SecondOfYear(t: Tm): nat { ((t.yday * 24 + t.hour) * 60 + t.min) * 60 + t.sec }

  // Seconds since 1601, counted.
  ghost function SecondCount(t: Tm): int
    requires 1601 <= t.year
  {
    DaysBeforeYear(t.year) * SECS_PER_DAY + SecondOfYear(t)
  }

  // To the nearest minute, half minutes towards zero.
  function NearestMinute(x: int): int {
    var a := if x < 0 then -x else x;
    var r := if a % 60 <= 30 then a - a % 60 else a + (60 - a % 60);
    if x < 0 then -r else r
  }

  // LocalMinusUTC on the two times: the counted difference, but across a new
  // year only to the minute.
  method LocalMinusUTC(gt: Tm, lt: Tm) returns (bias: int)
    requires IsBroken(gt) && IsBroken(lt) && -1 <= gt.year - lt.year <= 1
    ensures var diff := SecondCount(lt) - SecondCount(gt);
            bias == if gt.year == lt.year then diff else NearestMinute(diff)
  {
    var gtSecs: int, ltSecs: int := SecondOfYear(gt), SecondOfYear(lt);
    if gt.year > lt.year {
      var days := if IsLeapYear(lt.year) then 366 else 365;
      gtSecs := gtSecs + days * 24 * 60 * 60;
    } else if gt.year < lt.year {
      var days := if IsLeapYear(gt.year) then 366 else 365;
      ltSecs := ltSecs + days * 24 * 60 * 60;
    }
    bias := ltSecs - gtSecs;
    assert bias == SecondCount(lt) - SecondCount(gt);
    if gt.year != lt.year {
      var absBias := if bias < 0 then -bias else bias;
      var leapFixup := absBias % 60;
      if leapFixup != 0 {
        if leapFixup <= 30 {
          absBias := absBias - leapFixup;
        } else {
          absBias := absBias + (60 - leapFixup);
        }
        bias := if bias < 0 then -absBias else absBias;
      }
    }
  }

  // The bias is the difference of the clocks exactly within a year or for whole minutes.
  lemma BiasIsExactIff(diff: int)
    ensures NearestMinute(diff) == diff <==> diff % 60 == 0
    ensures -30 <= NearestMinute(diff) - diff <= 30
  {
    var a := if diff < 0 then -diff else diff;
    var q, r := a / 60, a % 60;
    assert a == q * 60 + r;
    assert diff % 60 == 0 <==> r == 0 by {
      if diff < 0 { assert diff == (-q - 1) * 60 + (60 - r); }
    }
  }

  // Whole minutes, at most half of one away, and of two that are as near the one that is
  // nearer to zero.
  lemma NearestMinuteIs(x: int)
    ensures var m := NearestMinute(x);
            && m % 60 == 0 && -30 <= m - x <= 30
            && (m - x == 30 ==> x < 0) && (m - x == -30 ==> x > 0)
  {
    var a := if x < 0 then -x else x;
    var q, r := a / 60, a % 60;
    assert a == q * 60 + r;
    assert a - r == q * 60 && a + (60 - r) == (q + 1) * 60;
  }

  type Ticks = x: int | 0 <= x < TWO_TO_THE_64

  // A file time moved by the bias, in 64-bit wrap-around.
  function Biased(src: Ticks, bias: int, fromLocal: bool): Ticks {
    (if fromLocal then src - bias * TICKS_PER_SEC else src + bias * TICKS_PER_SEC) % TWO_TO_THE_64
  }

  // BiasFileTimeToFileTime for a given bias.
  method BiasFileTime(src: Ticks, bias: int, fromLocal: bool) returns (dst: Ticks)
    requires -0x8000_0000 < bias < 0x8000_0000
    ensures dst == Biased(src, bias, fromLocal)
  {
    dst := src;
    if bias > 0 {
      var diff := bias * TICKS_PER_SEC;
      dst := if fromLocal then (src - diff) % TWO_TO_THE_64 else (src + diff) % TWO_TO_THE_64;
    } else if bias < 0 {
      var diff := -bias * TICKS_PER_SEC;
      dst := if fromLocal then (src + diff) % TWO_TO_THE_64 else (src - diff) % TWO_TO_THE_64;
    }
  }

  // With one bias the two conversions undo each other, for every file time.
  lemma BiasRoundTrip(t: Ticks, bias: int, fromLocal: bool)
    ensures Biased(Biased(t, bias, fromLocal), bias, !fromLocal) == t
  {
    var d := if fromLocal then -bias * TICKS_PER_SEC else bias * TICKS_PER_SEC;
    var moved := Biased(t, bias, fromLocal);
    var q := (t + d) / TWO_TO_THE_64;
    assert moved == t + d - q * TWO_TO_THE_64;
    ModUnique(moved - d, -q, t);
  }

  // The bias is local time less UTC: it takes the file time of an instant's UTC to that
  // of its local time, and back.
  lemma BiasReachesLocal(gt: Tm, lt: Tm, utc: Ticks, local: Ticks, fraction: int)
    requires IsBroken(gt) && IsBroken(lt)
    requires utc == SecondCount(gt) * 10000000 + fraction && local == SecondCount(lt) * 10000000 + fraction
    ensures Biased(utc, SecondCount(lt) - SecondCount(gt), false) == local
    ensures Biased(local, SecondCount(lt) - SecondCount(gt), true) == utc
  {
    hide SecondCount;
    ModUnique(local, 0, local);
    ModUnique(utc, 0, utc);
  }

  lemma ModUnique(x: int, q: int, r: int)
    requires 0 <= r < TWO_TO_THE_64 && x == q * TWO_TO_THE_64 + r
    ensures x % TWO_TO_THE_64 == r
  {
  }
}
