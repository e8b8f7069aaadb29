/** Text forms of timestamps: `datetime.isoformat()` for whole-second values,
    and the pattern CPython's `strptime` builds for `'%Y-%m-%dT%H:%M:%SZ'`.
    In that pattern `%Y` is exactly four digits, the other fields are one or
    two digits bounded by the pattern's alternatives (`%m` 1-12, `%d` 1-31 or
    a space and one digit 1-9, `%H` 0-23, `%M` 0-59, `%S` 0-61), and the
    letters `T` and `Z` match in either case. */
module IsoText {
  import opened Outcomes
  import opened Calendar

  predicate IsDigit(c: char) {
    '0' <= c <= '9'
  }

  predicate AllDigits(s: string) {
    forall i :: 0 <= i < |s| ==> IsDigit(s[i])
  }

  function DigitChar(v: int): (c: char)
    requires 0 <= v < 10
    ensures IsDigit(c) && c as int - '0' as int == v
  {
    ('0' as int + v) as char
  }

  /** The value of a string of decimal digits, most significant first. */
  function NumberValue(s: string): nat
    requires AllDigits(s)
  {
    if s == [] then 0
    else NumberValue(s[..|s| - 1]) * 10 + (s[|s| - 1] as int - '0' as int)
  }

  /** The value of a two-digit string. */
  lemma TwoDigitValue(s: string)
    requires |s| == 2 && AllDigits(s)
    ensures NumberValue(s) == 10 * (s[0] as int - '0' as int) + (s[1] as int - '0' as int)
  {
    var p := s[..1];
    assert p[..0] == [] && p[0] == s[0];
    assert NumberValue(p) == s[0] as int - '0' as int;
    assert s[..|s| - 1] == p;
  }

  /** The value of a four-digit string. */
  lemma FourDigitValue(s: string)
    requires |s| == 4 && AllDigits(s)
    ensures NumberValue(s) == 1000 * (s[0] as int - '0' as int) + 100 * (s[1] as int - '0' as int)
                            + 10 * (s[2] as int - '0' as int) + (s[3] as int - '0' as int)
  {
    assert s[..3][..2] == s[..2] && s[..3][2] == s[2] && s[..|s| - 1] == s[..3];
    TwoDigitValue(s[..2]);
  }

  function Pow10(w: nat): (p: nat)
    ensures p >= 1
  {
    if w == 0 then 1 else 10 * Pow10(w - 1)
  }

  /** `'%0*d' % (width, n)`: `n` in decimal, left-padded with zeros to `width` digits. */
  function ZeroPad(n: nat, width: nat): (s: string)
    requires n < Pow10(width)
    ensures |s| == width && AllDigits(s)
    ensures NumberValue(s) == n
  {
    if width == 0 then ""
    else
      var s := ZeroPad(n / 10, width - 1) + [DigitChar(n % 10)];
      assert s[..|s| - 1] == ZeroPad(n / 10, width - 1);
      s
  }

  /** `datetime.isoformat()` of a timestamp with no microseconds: `YYYY-MM-DDTHH:MM:SS`. */
  function IsoFormat(ts: Timestamp): string {
    var dt := FromTimestamp(ts);
    Join(ZeroPad(dt.year, 4), ZeroPad(dt.month, 2), ZeroPad(dt.day, 2),
         ZeroPad(dt.hour, 2), ZeroPad(dt.minute, 2), ZeroPad(dt.second, 2))
  }

  /** The six printed fields with the separators `isoformat` puts between them. */
  function Join(year: string, month: string, day: string, hour: string, minute: string, second: string): string {
    year + "-" + month + "-" + day + "T" + hour + ":" + minute + ":" + second
  }

  /** A field value and the position just after it. */
  datatype Scan = Scan(value: int, next: nat)

  /** Length of the run of digits starting at `i`. */
  function DigitRun(s: string, i: nat): (k: nat)
    requires i <= |s|
    ensures i + k <= |s|
    ensures AllDigits(s[i..i + k])
    ensures i + k == |s| || !IsDigit(s[i + k])
    decreases |s| - i
  {
    if i < |s| && IsDigit(s[i]) then
      var k := 1 + DigitRun(s, i + 1);
      assert s[i..i + k] == [s[i]] + s[i + 1..i + k];
      k
    else 0
  }

  /** A digit field of `minLen` to `maxLen` digits whose value lies in `lo..hi`.
      The literal that follows every field is not a digit, so a match must take
      the whole run of digits. */
  function NumberField(s: string, i: nat, minLen: nat, maxLen: nat, lo: int, hi: int): (r: Option<Scan>)
    requires i <= |s|
    ensures r.Some? ==> i + minLen <= r.value.next <= i + maxLen && r.value.next <= |s|
    ensures r.Some? ==> lo <= r.value.value <= hi
  {
    var k := DigitRun(s, i);
    var v := NumberValue(s[i..i + k]);
    if minLen <= k <= maxLen && lo <= v <= hi then Some(Scan(v, i + k)) else None
  }

  /** `%d`: like a two-digit field, or a space followed by one digit 1-9. */
  function DayField(s: string, i: nat): (r: Option<Scan>)
    requires i <= |s|
    ensures r.Some? ==> i < r.value.next <= i + 2 && r.value.next <= |s| && 1 <= r.value.value <= 31
  {
    if i < |s| && s[i] == ' ' then
      if i + 1 < |s| && '1' <= s[i + 1] <= '9' then Some(Scan(s[i + 1] as int - '0' as int, i + 2))
      else None
    else NumberField(s, i, 1, 2, 1, 31)
  }

  /** A literal character of the format, matched as `upper` or `lower`. */
  function Literal(s: string, i: nat, upper: char, lower: char): Option<nat>
  {
    if i < |s| && (s[i] == upper || s[i] == lower) then Some(i + 1) else None
  }

  /** Three fields read by a pattern and the position just after them. */
  datatype Triple = Triple(first: int, second: int, third: int, next: nat)

  /** `%Y-%m-%d` at the start of `s`: year, month and day. */
  function DatePattern(s: string): (r: Option<Triple>)
    ensures r.Some? ==> 0 <= r.value.first <= 9999 && 1 <= r.value.second <= 12 && 1 <= r.value.third <= 31
    ensures r.Some? ==> 8 <= r.value.next <= 10 && r.value.next <= |s|
  {
    var y :- NumberField(s, 0, 4, 4, 0, 9999);
    var i1 :- Literal(s, y.next, '-', '-');
    var mo :- NumberField(s, i1, 1, 2, 1, 12);
    var i2 :- Literal(s, mo.next, '-', '-');
    var d :- DayField(s, i2);
    Some(Triple(y.value, mo.value, d.value, d.next))
  }

  /** `T%H:%M:%S` from position `i`: hour, minute and second. */
  function ClockPattern(s: string, i: nat): (r: Option<Triple>)
    requires i <= |s|
    ensures r.Some? ==> 0 <= r.value.first <= 23 && 0 <= r.value.second <= 59 && 0 <= r.value.third <= 61
    ensures r.Some? ==> i + 6 <= r.value.next <= i + 9 && r.value.next <= |s|
  {
    var i3 :- Literal(s, i, 'T', 't');
    var h :- NumberField(s, i3, 1, 2, 0, 23);
    var i4 :- Literal(s, h.next, ':', ':');
    var mi :- NumberField(s, i4, 1, 2, 0, 59);
    var i5 :- Literal(s, mi.next, ':', ':');
    var sec :- NumberField(s, i5, 1, 2, 0, 61);
    Some(Triple(h.value, mi.value, sec.value, sec.next))
  }

  /** The fields `strptime(s, '%Y-%m-%dT%H:%M:%SZ')` reads, before `datetime` checks them;
      `None` where the pattern does not match the whole string. */
  function StrptimeFields(s: string): (r: Option<DateTime>)
    ensures r.Some? ==> 0 <= r.value.year <= 9999 && 1 <= r.value.month <= 12 && 1 <= r.value.day <= 31
    ensures r.Some? ==> 0 <= r.value.hour <= 23 && 0 <= r.value.minute <= 59 && 0 <= r.value.second <= 61
    ensures r.Some? ==> 15 <= |s| <= 20
  {
    var date :- DatePattern(s);
    var clock :- ClockPattern(s, date.next);
    var end :- Literal(s, clock.next, 'Z', 'z');
    if end == |s| then Some(DateTime(date.first, date.second, date.third, clock.first, clock.second, clock.third))
    else None
  }

  lemma {:induction false} DigitRunOver(s: string, i: nat, w: nat)
    requires i + w < |s|
    requires AllDigits(s[i..i + w]) && !IsDigit(s[i + w])
    ensures DigitRun(s, i) == w
    decreases w
  {
    if w > 0 {
      assert IsDigit(s[i..i + w][0]);
      assert s[i + 1..i + 1 + (w - 1)] == s[i..i + w][1..];
      DigitRunOver(s, i + 1, w - 1);
    }
  }

  /** The value of the two digits at `i`. */
  function TwoDigitsAt(s: string, i: nat): int
    requires i + 1 < |s|
  {
    10 * (s[i] as int - '0' as int) + (s[i + 1] as int - '0' as int)
  }

  /** The value of the four digits at `i`. */
  function FourDigitsAt(s: string, i: nat): int
    requires i + 3 < |s|
  {
    100 * TwoDigitsAt(s, i) + TwoDigitsAt(s, i + 2)
  }

  /** A run of exactly `w` digits at `i`, ended by a non-digit, is read whole when its length fits the field. */
  lemma FieldAt(s: string, i: nat, w: nat, minLen: nat, maxLen: nat, lo: int, hi: int)
    requires i + w < |s| && AllDigits(s[i..i + w]) && !IsDigit(s[i + w])
    requires minLen <= w <= maxLen
    ensures var v := NumberValue(s[i..i + w]);
      NumberField(s, i, minLen, maxLen, lo, hi) == if lo <= v <= hi then Some(Scan(v, i + w)) else None
  {
    DigitRunOver(s, i, w);
  }

  /** Two digits at `i` followed by a non-digit are read as a one-or-two-digit field. */
  lemma TwoDigitField(s: string, i: nat, lo: int, hi: int)
    requires i + 2 < |s| && IsDigit(s[i]) && IsDigit(s[i + 1]) && !IsDigit(s[i + 2])
    ensures NumberField(s, i, 1, 2, lo, hi) ==
      if lo <= TwoDigitsAt(s, i) <= hi then Some(Scan(TwoDigitsAt(s, i), i + 2)) else None
  {
    var w := s[i..i + 2];
    assert w[0] == s[i] && w[1] == s[i + 1];
    TwoDigitValue(w);
    FieldAt(s, i, 2, 1, 2, lo, hi);
  }

  /** Four digits at the start followed by a non-digit are read as the year field. */
  lemma FourDigitField(s: string)
    requires 4 < |s| && IsDigit(s[0]) && IsDigit(s[1]) && IsDigit(s[2]) && IsDigit(s[3]) && !IsDigit(s[4])
    ensures NumberField(s, 0, 4, 4, 0, 9999) == Some(Scan(FourDigitsAt(s, 0), 4))
  {
    var w := s[0..4];
    assert w[0] == s[0] && w[1] == s[1] && w[2] == s[2] && w[3] == s[3];
    FourDigitValue(w);
    FieldAt(s, 0, 4, 4, 4, 0, 9999);
  }

  /** The layout `isoformat` prints: `DDDD-DD-DDTDD:DD:DD` in the first 19 characters. */
  predicate FixedLayout(s: string) {
    && |s| >= 19
    && IsDigit(s[0]) && IsDigit(s[1]) && IsDigit(s[2]) && IsDigit(s[3]) && s[4] == '-'
    && IsDigit(s[5]) && IsDigit(s[6]) && s[7] == '-'
    && IsDigit(s[8]) && IsDigit(s[9]) && s[10] == 'T'
    && IsDigit(s[11]) && IsDigit(s[12]) && s[13] == ':'
    && IsDigit(s[14]) && IsDigit(s[15]) && s[16] == ':'
    && IsDigit(s[17]) && IsDigit(s[18])
  }

  /** The numbers written in a fixed layout. */
  function LayoutFields(s: string): DateTime
    requires FixedLayout(s)
  {
    DateTime(FourDigitsAt(s, 0), TwoDigitsAt(s, 5), TwoDigitsAt(s, 8),
             TwoDigitsAt(s, 11), TwoDigitsAt(s, 14), TwoDigitsAt(s, 17))
  }

  /** The date part of a fixed layout is read as its three fields, when they are within the pattern's bounds. */
  lemma DateReadsFixedWidth(s: string)
    requires FixedLayout(s)
    ensures DatePattern(s) ==
      if 1 <= TwoDigitsAt(s, 5) <= 12 && 1 <= TwoDigitsAt(s, 8) <= 31
      then Some(Triple(FourDigitsAt(s, 0), TwoDigitsAt(s, 5), TwoDigitsAt(s, 8), 10))
      else None
  {
    FourDigitField(s);
    TwoDigitField(s, 5, 1, 12);
    TwoDigitField(s, 8, 1, 31);
  }

  /** The clock part of a fixed layout, followed by a non-digit, is read as its three fields, when they are within the pattern's bounds. */
  lemma ClockReadsFixedWidth(s: string)
    requires FixedLayout(s) && |s| > 19 && !IsDigit(s[19])
    ensures ClockPattern(s, 10) ==
      if TwoDigitsAt(s, 11) <= 23 && TwoDigitsAt(s, 14) <= 59 && TwoDigitsAt(s, 17) <= 61
      then Some(Triple(TwoDigitsAt(s, 11), TwoDigitsAt(s, 14), TwoDigitsAt(s, 17), 19))
      else None
  {
    TwoDigitField(s, 11, 0, 23);
    TwoDigitField(s, 14, 0, 59);
    TwoDigitField(s, 17, 0, 61);
  }

  /** A string laid out as `YYYY-MM-DDTHH:MM:SSZ` is read field by field; it
      matches exactly when each field lies within its pattern's bounds. */
  lemma ReadsFixedWidth(s: string)
    requires |s| == 20 && FixedLayout(s) && s[19] == 'Z'
    ensures var dt := LayoutFields(s);
      StrptimeFields(s) ==
        if 1 <= dt.month <= 12 && 1 <= dt.day <= 31 && dt.hour <= 23 && dt.minute <= 59 && dt.second <= 61
        then Some(dt)
        else None
  {
    DateReadsFixedWidth(s);
    ClockReadsFixedWidth(s);
  }

  /** Where each character of a joined text comes from. */
  lemma JoinChars(year: string, month: string, day: string, hour: string, minute: string, second: string)
    requires |year| == 4 && |month| == 2 && |day| == 2 && |hour| == 2 && |minute| == 2 && |second| == 2
    ensures var s := Join(year, month, day, hour, minute, second);
      && |s| == 19
      && s[0] == year[0] && s[1] == year[1] && s[2] == year[2] && s[3] == year[3] && s[4] == '-'
      && s[5] == month[0] && s[6] == month[1] && s[7] == '-'
      && s[8] == day[0] && s[9] == day[1] && s[10] == 'T'
      && s[11] == hour[0] && s[12] == hour[1] && s[13] == ':'
      && s[14] == minute[0] && s[15] == minute[1] && s[16] == ':'
      && s[17] == second[0] && s[18] == second[1]
  {
  }

  /** Joined digit strings form the fixed layout, and the layout's numbers are theirs. */
  lemma JoinFields(year: string, month: string, day: string, hour: string, minute: string, second: string)
    requires |year| == 4 && |month| == 2 && |day| == 2 && |hour| == 2 && |minute| == 2 && |second| == 2
    requires AllDigits(year) && AllDigits(month) && AllDigits(day)
    requires AllDigits(hour) && AllDigits(minute) && AllDigits(second)
    ensures var s := Join(year, month, day, hour, minute, second);
      && FixedLayout(s)
      && LayoutFields(s) == DateTime(NumberValue(year), NumberValue(month), NumberValue(day),
                                     NumberValue(hour), NumberValue(minute), NumberValue(second))
  {
    JoinChars(year, month, day, hour, minute, second);
    FourDigitValue(year);
    TwoDigitValue(month);
    TwoDigitValue(day);
    TwoDigitValue(hour);
    TwoDigitValue(minute);
    TwoDigitValue(second);
  }

  /** `isoformat` prints the fixed layout, and the numbers in it are the timestamp's fields. */
  lemma IsoFormatFields(ts: Timestamp)
    ensures |IsoFormat(ts)| == 19 && FixedLayout(IsoFormat(ts))
    ensures LayoutFields(IsoFormat(ts)) == FromTimestamp(ts)
  {
    var dt := FromTimestamp(ts);
    var y, mo, d := ZeroPad(dt.year, 4), ZeroPad(dt.month, 2), ZeroPad(dt.day, 2);
    var h, mi, se := ZeroPad(dt.hour, 2), ZeroPad(dt.minute, 2), ZeroPad(dt.second, 2);
    JoinChars(y, mo, d, h, mi, se);
    JoinFields(y, mo, d, h, mi, se);
  }

  /** `strptime` reads back exactly the fields `isoformat` wrote, given the trailing `Z`. */
  lemma StrptimeReadsIsoFormat(ts: Timestamp)
    ensures StrptimeFields(IsoFormat(ts) + "Z") == Some(FromTimestamp(ts))
  {
    var iso := IsoFormat(ts);
    IsoFormatFields(ts);
    var s := iso + "Z";
    ZAppended(iso, s);
    ReadsFixedWidth(s);
  }

  /** Appending `Z` to the fixed layout keeps its fields and completes the pattern. */
  lemma ZAppended(iso: string, s: string)
    requires |iso| == 19 && FixedLayout(iso) && s == iso + "Z"
    ensures |s| == 20 && FixedLayout(s) && s[19] == 'Z' && LayoutFields(s) == LayoutFields(iso)
  {
    assert s[0] == iso[0] && s[1] == iso[1] && s[2] == iso[2] && s[3] == iso[3] && s[4] == iso[4];
    assert s[5] == iso[5] && s[6] == iso[6] && s[7] == iso[7] && s[8] == iso[8] && s[9] == iso[9];
    assert s[10] == iso[10] && s[11] == iso[11] && s[12] == iso[12] && s[13] == iso[13] && s[14] == iso[14];
    assert s[15] == iso[15] && s[16] == iso[16] && s[17] == iso[17] && s[18] == iso[18];
  }
}
