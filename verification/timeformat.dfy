/**
 * The `"%Y-%m-%d %H:%M:%S"` text form in which event dates are persisted,
 * and the parser that reads it back.
 */
module TimeFormat {
  import opened Base
  import opened Timestamps

  /** Length of every formatted timestamp, `YYYY-MM-DD HH:MM:SS`. */
  const Width := 19

  predicate IsDigit(c: char) {
    '0' <= c <= '9'
  }

  predicate AllDigits(s: string) {
    forall i :: 0 <= i < |s| ==> IsDigit(s[i])
  }

  function DigitChar(n: int): (c: char)
    requires 0 <= n <= 9
    ensures IsDigit(c)
  {
    ('0' as int + n) as char
  }

  function Pow10(w: nat): nat {
    if w == 0 then 1 else 10 * Pow10(w - 1)
  }

  /** The decimal value of a string of digits. */
  function Value(s: string): (n: nat)
    requires AllDigits(s)
    ensures n < Pow10(|s|)
    decreases |s|
  {
    if s == [] then 0
    else Value(s[..|s| - 1]) * 10 + (s[|s| - 1] as int - '0' as int)
  }

  /** `n` in decimal, left-padded with zeros to exactly `w` digits. */
  function Pad(n: nat, w: nat): (s: string)
    requires n < Pow10(w)
    ensures |s| == w && AllDigits(s)
    decreases w
  {
    if w == 0 then [] else Pad(n / 10, w - 1) + [DigitChar(n % 10)]
  }

  lemma {:induction false} ValueOfPad(n: nat, w: nat)
    requires n < Pow10(w)
    ensures Value(Pad(n, w)) == n
    decreases w
  {
    if w > 0 {
      var s := Pad(n, w);
      assert s[..|s| - 1] == Pad(n / 10, w - 1);
      ValueOfPad(n / 10, w - 1);
    }
  }

  lemma {:induction false} PadOfValue(s: string)
    requires AllDigits(s)
    ensures Pad(Value(s), |s|) == s
    decreases |s|
  {
    if s != [] {
      var init := s[..|s| - 1];
      PadOfValue(init);
      assert Value(s) / 10 == Value(init);
      assert s == init + [s[|s| - 1]];
    }
  }

  /** The shape `DDDD-DD-DD DD:DD:DD`. */
  predicate WellFormed(s: string) {
    && |s| == Width
    && s[4] == '-' && s[7] == '-' && s[10] == ' ' && s[13] == ':' && s[16] == ':'
    && AllDigits(s[0..4]) && AllDigits(s[5..7]) && AllDigits(s[8..10])
    && AllDigits(s[11..13]) && AllDigits(s[14..16]) && AllDigits(s[17..19])
  }

  /** Six digit fields joined by the separators of `%Y-%m-%d %H:%M:%S`. */
  function Assemble(y: string, mo: string, d: string, h: string, mi: string, se: string): string {
    (y + "-" + mo + "-" + d) + " " + (h + ":" + mi + ":" + se)
  }

  /** The fields of an assembled string sit at their fixed positions. */
  lemma {:induction false} AssembleSlices(y: string, mo: string, d: string, h: string, mi: string, se: string)
    requires |y| == 4 && |mo| == 2 && |d| == 2 && |h| == 2 && |mi| == 2 && |se| == 2
    ensures var s := Assemble(y, mo, d, h, mi, se);
      && |s| == Width
      && s[4] == '-' && s[7] == '-' && s[10] == ' ' && s[13] == ':' && s[16] == ':'
      && s[0..4] == y && s[5..7] == mo && s[8..10] == d
      && s[11..13] == h && s[14..16] == mi && s[17..19] == se
  {
    var date := y + "-" + mo + "-" + d;
    var time := h + ":" + mi + ":" + se;
    var s := Assemble(y, mo, d, h, mi, se);
    assert s == date + " " + time;
    assert s[..10] == date && s[11..] == time;
    assert date[0..4] == y && date[5..7] == mo && date[8..10] == d;
    assert time[0..2] == h && time[3..5] == mi && time[6..8] == se;
  }

  /** A string with the separators in place is the assembly of its own fields. */
  lemma {:induction false} SlicesAssemble(s: string)
    requires |s| == Width
    requires s[4] == '-' && s[7] == '-' && s[10] == ' ' && s[13] == ':' && s[16] == ':'
    ensures Assemble(s[0..4], s[5..7], s[8..10], s[11..13], s[14..16], s[17..19]) == s
  {
    var date := s[0..4] + "-" + s[5..7] + "-" + s[8..10];
    var time := s[11..13] + ":" + s[14..16] + ":" + s[17..19];
    assert date == s[..10];
    assert time == s[11..];
    assert s == s[..10] + " " + s[11..];
  }

  /** `t.strftime("%Y-%m-%d %H:%M:%S")`. */
  function Format(t: Timestamp): (s: string)
    ensures |s| == Width
    ensures WellFormed(s)
  {
    AssembleSlices(Pad(t.year, 4), Pad(t.month, 2), Pad(t.day, 2), Pad(t.hour, 2), Pad(t.minute, 2), Pad(t.second, 2));
    Assemble(Pad(t.year, 4), Pad(t.month, 2), Pad(t.day, 2), Pad(t.hour, 2), Pad(t.minute, 2), Pad(t.second, 2))
  }

  /**
   * `datetime.strptime(s, "%Y-%m-%d %H:%M:%S")` on the zero-padded form:
   * `None` where Python raises `ValueError` (wrong shape, or a date or time
   * that does not exist).
   */
  function Parse(s: string): (r: Option<Timestamp>)
    ensures r.Some? ==> WellFormed(s)
  {
    if !WellFormed(s) then None
    else
      var t := DateTime(Value(s[0..4]), Value(s[5..7]), Value(s[8..10]),
                        Value(s[11..13]), Value(s[14..16]), Value(s[17..19]));
      if Valid(t) then Some(t) else None
  }

  /** Formatting then parsing gives back the timestamp. */
  lemma {:induction false} ParseFormat(t: Timestamp)
    ensures Parse(Format(t)) == Some(t)
  {
    AssembleSlices(Pad(t.year, 4), Pad(t.month, 2), Pad(t.day, 2), Pad(t.hour, 2), Pad(t.minute, 2), Pad(t.second, 2));
    ValueOfPad(t.year, 4);
    ValueOfPad(t.month, 2);
    ValueOfPad(t.day, 2);
    ValueOfPad(t.hour, 2);
    ValueOfPad(t.minute, 2);
    ValueOfPad(t.second, 2);
  }

  /** Every string the parser accepts is exactly the formatting of what it parsed to. */
  lemma {:induction false} FormatParse(s: string)
    requires Parse(s).Some?
    ensures Format(Parse(s).value) == s
  {
    PadOfValue(s[0..4]);
    PadOfValue(s[5..7]);
    PadOfValue(s[8..10]);
    PadOfValue(s[11..13]);
    PadOfValue(s[14..16]);
    PadOfValue(s[17..19]);
    SlicesAssemble(s);
  }

  /** Distinct timestamps never share a text form. */
  lemma {:induction false} FormatInjective(a: Timestamp, b: Timestamp)
    requires Format(a) == Format(b)
    ensures a == b
  {
    ParseFormat(a);
    ParseFormat(b);
  }
}
