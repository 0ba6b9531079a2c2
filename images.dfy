/** File names of captured images: `f"{label}_{timestamp}.jpg"` with the
    timestamp `strftime("%Y%m%d_%H%M%S")` of the capture time. */
module Images {
  import opened Options

  /** The capture instant as `datetime.now()` gives it (microseconds are not printed). */
  datatype DateTime = DateTime(year: nat, month: nat, day: nat, hour: nat, minute: nat, second: nat)

  /** The field ranges of a `datetime`. */
  predicate ValidDateTime(t: DateTime)
  {
    1 <= t.year <= 9999 && 1 <= t.month <= 12 && 1 <= t.day <= 31
    && t.hour < 24 && t.minute < 60 && t.second < 60
  }

  predicate IsDigit(c: char)
  {
    '0' <= c <= '9'
  }

  predicate AllDigits(s: string)
  {
    forall i :: 0 <= i < |s| ==> IsDigit(s[i])
  }

  function Pow10(width: nat): nat
  {
    if width == 0 then 1 else 10 * Pow10(width - 1)
  }

  /** `n` in decimal, zero-padded to `width` digits (`%02d`, `%04d`). */
  function Pad(n: nat, width: nat): (s: string)
    ensures |s| == width && AllDigits(s)
  {
    if width == 0 then [] else Pad(n / 10, width - 1) + [('0' as int + n % 10) as char]
  }

  /** The number a string of decimal digits denotes. */
  function DigitsValue(s: string): nat
    requires AllDigits(s)
  {
    if s == [] then 0 else DigitsValue(s[..|s| - 1]) * 10 + (s[|s| - 1] as int - '0' as int)
  }

  /** Reading back a padded number gives the number, when it fits the width. */
  lemma {:induction false} PadThenRead(n: nat, width: nat)
    requires n < Pow10(width)
    ensures DigitsValue(Pad(n, width)) == n
    decreases width
  {
    if width > 0 {
      var s := Pad(n, width);
      assert s[..|s| - 1] == Pad(n / 10, width - 1);
      PadThenRead(n / 10, width - 1);
    }
  }

  /** Padding the value of a digit string to its own width gives the string back. */
  lemma {:induction false} ReadThenPad(s: string)
    requires AllDigits(s)
    ensures Pad(DigitsValue(s), |s|) == s
    decreases |s|
  {
    if s != [] {
      var p := s[..|s| - 1];
      var d := s[|s| - 1] as int - '0' as int;
      var n := DigitsValue(s);
      assert n == DigitsValue(p) * 10 + d;
      assert n / 10 == DigitsValue(p) && n % 10 == d;
      ReadThenPad(p);
      assert s == p + [s[|s| - 1]];
    }
  }

  /** Every slice of a digit string is a digit string. */
  lemma DigitsSlice(s: string, lo: nat, hi: nat)
    requires AllDigits(s) && lo <= hi <= |s|
    ensures AllDigits(s[lo..hi])
  {
    assert forall i :: 0 <= i < hi - lo ==> s[lo..hi][i] == s[lo + i];
  }

  /** Three zero-padded fields side by side, the first `width` digits wide and
      the other two 2 digits wide: `%Y%m%d` with width 4, `%H%M%S` with width 2. */
  function PadFields(a: nat, b: nat, c: nat, width: nat): (s: string)
    ensures |s| == width + 4 && AllDigits(s)
  {
    Pad(a, width) + Pad(b, 2) + Pad(c, 2)
  }

  /** Reads back the three fields of a `width + 4` digit string. */
  function ReadFields(s: string, width: nat): (nat, nat, nat)
    requires |s| == width + 4 && AllDigits(s)
  {
    DigitsSlice(s, 0, width);
    DigitsSlice(s, width, width + 2);
    DigitsSlice(s, width + 2, width + 4);
    (DigitsValue(s[..width]), DigitsValue(s[width..width + 2]), DigitsValue(s[width + 2..]))
  }

  /** Fields that fit their widths read back as themselves. */
  lemma FieldsRoundTrip(a: nat, b: nat, c: nat, width: nat)
    requires a < Pow10(width) && b < 100 && c < 100
    ensures ReadFields(PadFields(a, b, c, width), width) == (a, b, c)
  {
    var s := PadFields(a, b, c, width);
    assert s[..width] == Pad(a, width) && s[width..width + 2] == Pad(b, 2) && s[width + 2..] == Pad(c, 2);
    assert Pow10(2) == 100;
    PadThenRead(a, width);
    PadThenRead(b, 2);
    PadThenRead(c, 2);
  }

  /** A digit string re-padded field by field is unchanged. */
  lemma ReadFieldsThenPad(s: string, width: nat)
    requires |s| == width + 4 && AllDigits(s)
    ensures var f := ReadFields(s, width); PadFields(f.0, f.1, f.2, width) == s
  {
    DigitsSlice(s, 0, width);
    DigitsSlice(s, width, width + 2);
    DigitsSlice(s, width + 2, width + 4);
    ReadThenPad(s[..width]);
    ReadThenPad(s[width..width + 2]);
    ReadThenPad(s[width + 2..]);
    assert s == s[..width] + s[width..width + 2] + s[width + 2..];
  }

  /** `strftime("%Y%m%d_%H%M%S")`. */
  function Timestamp(t: DateTime): (s: string)
    ensures |s| == 15 && s[8] == '_'
  {
    PadFields(t.year, t.month, t.day, 4) + "_" + PadFields(t.hour, t.minute, t.second, 2)
  }

  /** The name `capture_image` gives the picture it takes. */
  function ImageName(imageLabel: string, t: DateTime): (name: string)
    ensures |name| == |imageLabel| + 20 && name[..|imageLabel|] == imageLabel
    ensures name[|name| - 4..] == ".jpg"
  {
    imageLabel + "_" + Timestamp(t) + ".jpg"
  }

  /** Reads a 15-character `%Y%m%d_%H%M%S` timestamp back. */
  function ParseTimestamp(s: string): Option<DateTime>
    requires |s| == 15
  {
    if s[8] != '_' || !AllDigits(s[..8]) || !AllDigits(s[9..]) then None
    else
      var (year, month, day) := ReadFields(s[..8], 4);
      var (hour, minute, second) := ReadFields(s[9..], 2);
      Some(DateTime(year, month, day, hour, minute, second))
  }

  /** Splits an image name back into its label and capture time. */
  function ParseImageName(name: string): Option<(string, DateTime)>
  {
    var n := |name|;
    if n < 20 || name[n - 4..] != ".jpg" || name[n - 20] != '_' then None
    else
      match ParseTimestamp(name[n - 19..n - 4])
      case None => None
      case Some(t) => Some((name[..n - 20], t))
  }

  /** Each field of the timestamp sits at its fixed position. */
  lemma TimestampParts(t: DateTime)
    ensures var s := Timestamp(t);
      && s[..4] == Pad(t.year, 4) && s[4..6] == Pad(t.month, 2) && s[6..8] == Pad(t.day, 2)
      && s[9..11] == Pad(t.hour, 2) && s[11..13] == Pad(t.minute, 2) && s[13..] == Pad(t.second, 2)
      && s[..8] == Pad(t.year, 4) + Pad(t.month, 2) + Pad(t.day, 2)
      && s[9..] == Pad(t.hour, 2) + Pad(t.minute, 2) + Pad(t.second, 2)
  {
    var s := Timestamp(t);
    var date, time := PadFields(t.year, t.month, t.day, 4), PadFields(t.hour, t.minute, t.second, 2);
    assert s[..8] == date && s[9..] == time;
    assert s[..4] == date[..4] && s[4..6] == date[4..6] && s[6..8] == date[6..];
    assert s[9..11] == time[..2] && s[11..13] == time[2..4] && s[13..] == time[4..];
  }

  /** A valid time's timestamp reads back as that time. */
  lemma TimestampRoundTrip(t: DateTime)
    requires ValidDateTime(t)
    ensures ParseTimestamp(Timestamp(t)) == Some(t)
  {
    var s := Timestamp(t);
    var date, time := PadFields(t.year, t.month, t.day, 4), PadFields(t.hour, t.minute, t.second, 2);
    assert s[..8] == date && s[9..] == time;
    assert Pow10(4) == 10000;
    FieldsRoundTrip(t.year, t.month, t.day, 4);
    FieldsRoundTrip(t.hour, t.minute, t.second, 2);
  }

  /** A timestamp that reads back is the timestamp of what it reads as. */
  lemma ParsedTimestampIsTimestamp(s: string)
    requires |s| == 15 && ParseTimestamp(s).Some?
    ensures Timestamp(ParseTimestamp(s).value) == s
  {
    var date, time := s[..8], s[9..];
    ReadFieldsThenPad(date, 4);
    ReadFieldsThenPad(time, 2);
    assert s == date + "_" + time;
  }

  /** Every name `capture_image` produces for a valid time parses back to its
      label and time. */
  lemma ImageNameRoundTrip(imageLabel: string, t: DateTime)
    requires ValidDateTime(t)
    ensures ParseImageName(ImageName(imageLabel, t)) == Some((imageLabel, t))
  {
    var name := ImageName(imageLabel, t);
    var n := |name|;
    assert name[n - 19..n - 4] == Timestamp(t);
    assert name[..n - 20] == imageLabel;
    TimestampRoundTrip(t);
  }

  /** Conversely, every name that parses is exactly the name `capture_image`
      gives for that label and time. */
  lemma ParsedNameIsImageName(name: string)
    requires ParseImageName(name).Some?
    ensures ImageName(ParseImageName(name).value.0, ParseImageName(name).value.1) == name
  {
    var n := |name|;
    var prefix, s := name[..n - 20], name[n - 19..n - 4];
    var t := ParseTimestamp(s).value;
    assert ParseImageName(name).value == (prefix, t);
    ParsedTimestampIsTimestamp(s);
    assert name[n - 20..n - 19] == "_";
    assert name == prefix + name[n - 20..n - 19] + s + name[n - 4..];
    assert ImageName(prefix, t) == prefix + "_" + s + ".jpg";
  }

  /** Two captures with the same label at different valid times get different names. */
  lemma ImageNamesDistinct(imageLabel: string, t1: DateTime, t2: DateTime)
    requires ValidDateTime(t1) && ValidDateTime(t2) && t1 != t2
    ensures ImageName(imageLabel, t1) != ImageName(imageLabel, t2)
  {
    ImageNameRoundTrip(imageLabel, t1);
    ImageNameRoundTrip(imageLabel, t2);
  }
}
