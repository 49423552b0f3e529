/**
 * `format_hms` of src/bin/timersock.rs: a duration in whole seconds rendered
 * as HH:MM:SS, each field zero-padded to at least two digits, hours of any
 * width. `ParseHms` is the inverse used to state what the rendering means.
 */
module Hms {
  import opened Text

  datatype Fields = Fields(hours: nat, minutes: nat, seconds: nat)

  /** The split of a duration into hours, minutes and seconds. */
  function Split(total: nat): (f: Fields)
    ensures f.hours * 3600 + f.minutes * 60 + f.seconds == total
    ensures f.minutes < 60 && f.seconds < 60
  {
    Fields(total / 3600, (total % 3600) / 60, total % 60)
  }

  /** The split is the only one with minutes and seconds below 60. */
  lemma SplitUnique(total: nat, f: Fields)
    requires f.hours * 3600 + f.minutes * 60 + f.seconds == total
    requires f.minutes < 60 && f.seconds < 60
    ensures f == Split(total)
  {
    var g := Split(total);
    assert f.minutes * 60 + f.seconds < 3600;
    assert g.minutes * 60 + g.seconds < 3600;
    assert f.hours == g.hours;
    assert f.minutes * 60 + f.seconds == g.minutes * 60 + g.seconds;
    assert f.minutes == g.minutes;
  }

  function FormatHms(total: nat): (r: string)
    ensures |r| >= 8
    ensures r[|r| - 6] == ':' && r[|r| - 3] == ':'
    ensures total < 360000 ==> |r| == 8
  {
    var f := Split(total);
    Pad2(f.hours) + ":" + Pad2(f.minutes) + ":" + Pad2(f.seconds)
  }

  /** Reads `H+:MM:SS` back into its fields; `None` for any other shape. */
  function ParseHms(r: string): Option<Fields> {
    if |r| < 8 || r[|r| - 6] != ':' || r[|r| - 3] != ':' then None
    else
      var h, m, s := r[..|r| - 6], r[|r| - 5..|r| - 3], r[|r| - 2..];
      if AllDigits(h) && AllDigits(m) && AllDigits(s) then
        Some(Fields(ParseNat(h), ParseNat(m), ParseNat(s)))
      else None
  }

  /** The rendered text carries exactly the split fields: the round trip is exact. */
  lemma FormatHmsRoundTrip(total: nat)
    ensures ParseHms(FormatHms(total)) == Some(Split(total))
  {
    var f := Split(total);
    var h, m, s := Pad2(f.hours), Pad2(f.minutes), Pad2(f.seconds);
    var r := FormatHms(total);
    assert r == h + ":" + m + ":" + s;
    assert r[..|r| - 6] == h;
    assert r[|r| - 5..|r| - 3] == m;
    assert r[|r| - 2..] == s;
  }

  /** What the text means: hours*3600 + minutes*60 + seconds is the input, minutes and seconds below 60. */
  lemma FormatHmsSemantics(total: nat)
    ensures ParseHms(FormatHms(total)).Some?
    ensures var f := ParseHms(FormatHms(total)).value;
      f.hours * 3600 + f.minutes * 60 + f.seconds == total && f.minutes < 60 && f.seconds < 60
  {
    FormatHmsRoundTrip(total);
  }

  /** Renderings under an hour, at a day's end and past a day: hours are not wrapped at 24. */
  lemma FormatHmsExamples()
    ensures FormatHms(0) == "00:00:00"
    ensures FormatHms(3661) == "01:01:01"
    ensures FormatHms(86399) == "23:59:59"
    ensures FormatHms(90000) == "25:00:00"
  {
    FormatOf(0, 0, 0, 0, "00", "00", "00");
    FormatOf(3661, 1, 1, 1, "01", "01", "01");
    FormatOf(86399, 23, 59, 59, "23", "59", "59");
    FormatOf(90000, 25, 0, 0, "25", "00", "00");
  }

  lemma FormatOf(total: nat, h: nat, m: nat, s: nat, hh: string, mm: string, ss: string)
    requires h * 3600 + m * 60 + s == total && m < 60 && s < 60
    requires Pad2(h) == hh && Pad2(m) == mm && Pad2(s) == ss
    ensures FormatHms(total) == hh + ":" + mm + ":" + ss
  {
    SplitUnique(total, Fields(h, m, s));
  }
}
