/**
 A reader of timestamps after the grammar of section 5.6 of RFC 3339, for UTC
 times. It knows nothing of how the services render theirs; that it reads back
 what they meant is proved here.
 */
module Rfc3339 {
  import opened Uuids
  import opened Timestamps

  /** The two-digit or four-digit field at `from`. */
  function Field(s: string, from: nat, width: nat): nat
    requires from + width <= |s| && Digits(s[from..from + width])
  {
    Scaled(s[from..from + width], width)
  }

  /** `date-fullyear "-" date-month "-" date-mday "T" time-hour ":" time-minute ":" time-second`. */
  predicate HasClock(s: string) {
    && |s| >= 19
    && Digits(s[0..4]) && s[4] == '-' && Digits(s[5..7]) && s[7] == '-' && Digits(s[8..10])
    && s[10] == 'T'
    && Digits(s[11..13]) && s[13] == ':' && Digits(s[14..16]) && s[16] == ':' && Digits(s[17..19])
  }

  /** `[time-secfrac] "Z"`, where `time-secfrac` is a point and at least one digit. */
  predicate HasTail(s: string) {
    || s == "Z"
    || (|s| >= 3 && s[0] == '.' && Digits(s[1..|s| - 1]) && s[|s| - 1] == 'Z')
  }

  /** The fraction in nanoseconds; digits past the ninth are cut off. */
  function NanosOf(tail: string): nat
    requires HasTail(tail)
  {
    if tail == "Z" then 0
    else
      var frac := tail[1..|tail| - 1];
      if |frac| <= 9 then Scaled(frac, 9) else Scaled(frac[..9], 9)
  }

  /** The time a text denotes, if it is a date and time of the grammar that exists. */
  function Read(s: string): Option<UtcTime> {
    if HasClock(s) && HasTail(s[19..]) then
      var t := UtcTime(Field(s, 0, 4), Field(s, 5, 2), Field(s, 8, 2),
                       Field(s, 11, 2), Field(s, 14, 2), Field(s, 17, 2), NanosOf(s[19..]));
      if InCalendar(t) then Some(t) else None
    else None
  }

  // ---------- Reading what was rendered ----------

  /** A text that begins with `a`, then the separator `c`, then `rest`. */
  lemma Split(a: string, c: string, rest: string, s: string)
    requires s == a + (c + rest) && |c| == 1
    ensures |s| == |a| + 1 + |rest| && s[..|a|] == a && s[|a|] == c[0] && s[|a| + 1..] == rest
  {
    assert s == a + c + rest;
  }

  lemma Inner(s: string, n: nat, from: nat, to: nat)
    requires n + to <= |s| && from <= to
    ensures s[n..][from..to] == s[n + from..n + to]
    ensures from < to ==> s[n..][from] == s[n + from]
    ensures s[n..][to..] == s[n + to..]
  {
  }

  /** What stands where in the time of day. */
  lemma TimeLayout(t: UtcTime, rest: string)
    requires ValidTime(t)
    ensures var s := TimeText(t, rest);
            && |s| == 8 + |rest|
            && s[0..2] == Pad(t.hour, 2) && s[2] == ':' && s[3..5] == Pad(t.minute, 2) && s[5] == ':'
            && s[6..8] == Pad(t.second, 2) && s[8..] == rest
  {
    hide Pad;
    var s := TimeText(t, rest);
    var b := Pad(t.minute, 2) + (":" + (Pad(t.second, 2) + rest));
    var c := Pad(t.second, 2) + rest;
    Split(Pad(t.hour, 2), ":", b, s);
    Split(Pad(t.minute, 2), ":", c, b);
    Inner(s, 3, 0, 2);
    Inner(s, 3, 2, 3);
    Inner(s, 6, 0, 2);
    assert c[..2] == Pad(t.second, 2) && c[2..] == rest;
  }

  /** What stands where in a rendered timestamp. */
  lemma ClockLayout(t: UtcTime, rest: string)
    requires ValidTime(t)
    ensures var s := Clock(t, rest);
            && |s| == 19 + |rest|
            && s[0..4] == Pad(t.year, 4) && s[4] == '-' && s[5..7] == Pad(t.month, 2) && s[7] == '-'
            && s[8..10] == Pad(t.day, 2) && s[10] == 'T' && s[11..] == TimeText(t, rest)
  {
    hide Pad, TimeText;
    TimeLayout(t, rest);
    var s := Clock(t, rest);
    var d := Pad(t.day, 2) + ("T" + TimeText(t, rest));
    var m := Pad(t.month, 2) + ("-" + d);
    Split(Pad(t.year, 4), "-", m, s);
    Split(Pad(t.month, 2), "-", d, m);
    Split(Pad(t.day, 2), "T", TimeText(t, rest), d);
    Inner(s, 5, 0, 2);
    Inner(s, 5, 2, 3);
    Inner(s, 8, 0, 2);
    Inner(s, 8, 2, 3);
  }

  /** The same, column by column. */
  lemma Layout(t: UtcTime, rest: string)
    requires ValidTime(t)
    ensures var s := Clock(t, rest);
            && HasClock(s) && s[19..] == rest
            && s[0..4] == Pad(t.year, 4) && s[5..7] == Pad(t.month, 2) && s[8..10] == Pad(t.day, 2)
            && s[11..13] == Pad(t.hour, 2) && s[14..16] == Pad(t.minute, 2) && s[17..19] == Pad(t.second, 2)
  {
    hide Pad, TimeText, Clock;
    ClockLayout(t, rest);
    TimeLayout(t, rest);
    var s := Clock(t, rest);
    Inner(s, 11, 0, 2);
    Inner(s, 11, 2, 3);
    Inner(s, 11, 3, 5);
    Inner(s, 11, 5, 6);
    Inner(s, 11, 6, 8);
  }

  lemma TailLayout(frac: string)
    requires Digits(frac) && |frac| <= 9
    ensures HasTail(Tail(frac)) && NanosOf(Tail(frac)) == Scaled(frac, 9)
  {
    if frac == "" {
      assert Scaled("", 9) == 0 by { EmptyIsZero(9); }
    } else {
      assert Tail(frac)[1..|Tail(frac)| - 1] == frac;
    }
  }

  lemma {:induction false} EmptyIsZero(w: nat)
    ensures Scaled("", w) == 0
  {
    if w == 0 {
    } else {
      EmptyIsZero(w - 1);
    }
  }

  /** A rendered timestamp is read as the fields it was made of, with the fraction it shows. */
  lemma ReadsRendered(t: UtcTime, frac: string)
    requires ValidTime(t) && Digits(frac) && |frac| <= 9
    ensures Read(Render(t, frac)) == Some(t.(nano := Scaled(frac, 9)))
  {
    hide Pad, TimeText, Clock, Scaled, Tail;
    Layout(t, Tail(frac));
    TailLayout(frac);
    PowersOfTen();
    PadValue(t.year, 4);
    PadValue(t.month, 2);
    PadValue(t.day, 2);
    PadValue(t.hour, 2);
    PadValue(t.minute, 2);
    PadValue(t.second, 2);
    ScaledBound(frac, 9);
  }

  /** Round trip: a Go timestamp is read as exactly the time it was made of. */
  lemma ReadsNano(t: UtcTime)
    requires ValidTime(t)
    ensures Read(FormatNano(t)) == Some(t)
  {
    ReadsRendered(t, GoFraction(t));
    GoFractionDenotes(t);
    PowersOfTen();
  }

  /** A Node timestamp is read as its time, cut to milliseconds. */
  lemma ReadsMillis(t: UtcTime)
    requires ValidTime(t)
    ensures Read(FormatMillis(t)) == Some(t.(nano := t.nano / 1_000_000 * 1_000_000))
  {
    ReadsRendered(t, NodeFraction(t));
    MillisDenote(t);
    PowersOfTen();
    assert Nanos(t) / 1_000_000 == Seconds(t) * 1000 + t.nano / 1_000_000;
  }

  /** Only texts with each separator in its place, and with the UTC designator at the end, are timestamps. */
  lemma AcceptsOnly(s: string)
    ensures Read(s).Some? ==>
              && |s| >= 20 && s[4] == '-' && s[7] == '-' && s[10] == 'T' && s[13] == ':' && s[16] == ':'
              && s[|s| - 1] == 'Z' && (|s| > 20 ==> s[19] == '.')
  {
    if |s| >= 19 {
      var tail := s[19..];
      assert tail != "" ==> tail[|tail| - 1] == s[|s| - 1] && tail[0] == s[19];
    }
  }

  /** An instant's text is read as its calendar reading, which denotes it. */
  lemma ReadsInstant(n: nat)
    requires FourDigitYear(n)
    ensures Read(FormatInstant(n)) == Some(UtcOf(n)) && Nanos(UtcOf(n)) == n
  {
    UtcOfInverse(n);
    ReadsNano(UtcOf(n));
  }
}
