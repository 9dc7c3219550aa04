/** Strict RFC 3339 timestamps (crates/mp-model/src/datetime.rs). The bytes of the input are
    modelled as characters; no byte outside ASCII is ever accepted. */
module Rfc3339 {
  import opened Prelude
  import opened Text
  import opened Calendar

  const I64_MIN := -0x8000_0000_0000_0000
  const I64_MAX := 0x7FFF_FFFF_FFFF_FFFF

  /** The program's checked 64-bit operations. */
  function CheckedI64(x: int): Option<int> {
    if I64_MIN <= x <= I64_MAX then Some(x) else None
  }

  // ---------- The grammar (RFC 3339, sections 5.6 and 5.7) ----------

  datatype Offset = Zulu | Numeric(plus: bool, hour: nat, minute: nat) {
    predicate Valid() {
      Numeric? ==> hour <= 23 && minute <= 59
    }

    function Seconds(): int {
      match this
      case Zulu => 0
      case Numeric(plus, hour, minute) => if plus then hour * 3600 + minute * 60 else -(hour * 3600 + minute * 60)
    }

    function Printed(): string
      requires Valid()
    {
      match this
      case Zulu => "Z"
      case Numeric(plus, hour, minute) => (if plus then "+" else "-") + Digits(hour, 2) + ":" + Digits(minute, 2)
    }
  }

  /** A date-time. `fraction` holds the digits of a secfrac, which must not be empty. */
  datatype DateTime = DateTime(
    date: Date, hour: nat, minute: nat, second: nat, fraction: Option<string>, offset: Offset)
  {
    /** Leap seconds are excluded. */
    predicate Valid() {
      && 0 <= date.year <= 9999 && date.Valid()
      && hour <= 23 && minute <= 59 && second <= 59
      && (fraction.Some? ==> fraction.value != "" && AllDigits(fraction.value))
      && offset.Valid()
    }

    /** The seconds since the epoch, with the days counted on the calendar. */
    function Instant(): int
      requires Valid()
    {
      DayNumber(date) * 86_400 + hour * 3600 + minute * 60 + second - offset.Seconds()
    }

    function Printed(): string
      requires Valid()
    {
      PrintedHead() + PrintedFraction() + offset.Printed()
    }

    function PrintedHead(): string
      requires Valid()
    {
      PrintedDate() + "T" + PrintedTime()
    }

    function PrintedDate(): string
      requires Valid()
    {
      Joined(Digits(date.year, 4), '-', Digits(date.month, 2), Digits(date.day, 2))
    }

    function PrintedTime(): string
      requires Valid()
    {
      Joined(Digits(hour, 2), ':', Digits(minute, 2), Digits(second, 2))
    }

    function PrintedFraction(): string {
      if fraction.Some? then "." + fraction.value else ""
    }
  }

  function Joined(a: string, sep: char, b: string, c: string): string {
    a + [sep] + b + [sep] + c
  }

  predicate AllDigits(s: string) {
    forall c :: c in s ==> IsDigit(c)
  }

  /** `n` in exactly `width` digits. */
  function Digits(n: nat, width: nat): (s: string)
    ensures |s| == width && AllDigits(s)
  {
    if width == 0 then "" else Digits(n / 10, width - 1) + [DigitChar(n % 10)]
  }

  function Pow10(k: nat): nat {
    if k == 0 then 1 else 10 * Pow10(k - 1)
  }

  lemma {:induction false} DigitsRead(n: nat, width: nat)
    requires n < Pow10(width)
    ensures DigitsValue(Digits(n, width)) == n
  {
    if width > 0 {
      DigitsRead(n / 10, width - 1);
      assert Digits(n, width)[..width - 1] == Digits(n / 10, width - 1);
    }
  }

  lemma DigitsAppend(n: nat, d: nat, width: nat)
    requires d < 10
    ensures Digits(n * 10 + d, width + 1) == Digits(n, width) + [DigitChar(d)]
    ensures n < Pow10(width) ==> n * 10 + d < Pow10(width + 1)
  {
    assert (n * 10 + d) / 10 == n && (n * 10 + d) % 10 == d;
  }

  lemma DigitCharOfValue(c: char)
    requires IsDigit(c)
    ensures DigitValue(c) < 10 && DigitChar(DigitValue(c)) == c
  {}

  lemma {:induction false} DigitsWritten(s: string)
    requires AllDigits(s)
    ensures Digits(DigitsValue(s), |s|) == s && DigitsValue(s) < Pow10(|s|)
  {
    if s != "" {
      var n := |s| - 1;
      DigitsWritten(s[..n]);
      DigitCharOfValue(s[n]);
      DigitsAppend(DigitsValue(s[..n]), DigitValue(s[n]), n);
      assert s == s[..n] + [s[n]];
    }
  }

  // ---------- The parser ----------

  /** parse_digits: a decimal number in exactly `length` positions. */
  function ParseDigits(bytes: string, start: nat, length: nat): Option<nat> {
    if start + length <= |bytes| && AllDigits(bytes[start..start + length])
    then Some(DigitsValue(bytes[start..start + length]))
    else None
  }

  predicate HasAt(bytes: string, i: nat, c: char) {
    i < |bytes| && bytes[i] == c
  }

  /** parse_rfc3339: succeeds exactly on the printed form of a valid date-time, with its instant. */
  method ParseRfc3339(bytes: string) returns (r: Option<int>)
    ensures r.Some? ==> exists t: DateTime :: t.Valid() && bytes == t.Printed() && r.value == t.Instant()
    ensures forall t: DateTime :: t.Valid() && bytes == t.Printed() ==> r == Some(t.Instant())
  {
    forall t: DateTime ensures Recognized(bytes) == Some(t) <==> t.Valid() && bytes == t.Printed() {
      RecognizedIff(bytes, t);
    }
    var fields := ParseFields(bytes);
    if fields.None? {
      return None;
    }
    r := UnixSeconds(fields.value);
  }

  lemma InstantFits(t: DateTime)
    requires t.Valid()
    ensures var days := DaysFromCivil(t.date);
      && days == DayNumber(t.date)
      && I64_MIN / 2 <= days * 86_400 <= I64_MAX / 2
    ensures 0 <= t.hour * 3600 + t.minute * 60 + t.second < 86_400 && -86_400 < t.offset.Seconds() < 86_400
  {
    CivilIsCounted(t.date);
    FourDigitYears(t.date);
  }

  /** The arithmetic: none of the overflow branches is ever taken. */
  method UnixSeconds(t: DateTime) returns (r: Option<int>)
    requires t.Valid()
    ensures r == Some(t.Instant())
  {
    InstantFits(t);
    var days := CheckedI64(DaysFromCivil(t.date) * 86_400);
    if days.None? {
      return None;
    }
    var local := CheckedI64(days.value + (t.hour * 3600 + t.minute * 60 + t.second));
    if local.None? {
      return None;
    }
    return CheckedI64(local.value - t.offset.Seconds());
  }

  /** The scan up to the arithmetic. */
  method ParseFields(bytes: string) returns (r: Option<DateTime>)
    ensures r == Recognized(bytes)
    ensures r.Some? ==> r.value.Valid()
  {
    if |bytes| < 20 || !HasAt(bytes, 4, '-') || !HasAt(bytes, 7, '-') || !HasAt(bytes, 10, 'T')
       || !HasAt(bytes, 13, ':') || !HasAt(bytes, 16, ':') {
      return None;
    }
    var year, month, day := ParseDigits(bytes, 0, 4), ParseDigits(bytes, 5, 2), ParseDigits(bytes, 8, 2);
    var hour, minute, second := ParseDigits(bytes, 11, 2), ParseDigits(bytes, 14, 2), ParseDigits(bytes, 17, 2);
    if year.None? || month.None? || day.None? || hour.None? || minute.None? || second.None? {
      return None;
    }
    var date := Date(year.value, month.value, day.value);
    if !(1 <= date.month <= 12) || date.day == 0 || date.day > DaysInMonth(date.year, date.month)
       || hour.value > 23 || minute.value > 59 || second.value > 59 {
      return None;
    }
    var cursor, fraction := 19, None;
    if HasAt(bytes, cursor, '.') {
      cursor := cursor + 1;
      while cursor < |bytes| && IsDigit(bytes[cursor])
        invariant 20 <= cursor <= |bytes|
        invariant DigitRun(bytes, cursor) == DigitRun(bytes, 20)
      {
        cursor := cursor + 1;
      }
      assert bytes[20..20] == "";
      if cursor == 20 {
        return None;
      }
      fraction := Some(bytes[20..cursor]);
    }
    var offset := ParseOffset(bytes, cursor);
    if offset.None? {
      return None;
    }
    r := Some(DateTime(date, hour.value, minute.value, second.value, fraction, offset.value));
    assert r == Recognized(bytes);
    RecognizedSound(bytes, r.value);
  }

  /** The match on the byte at the cursor: the offset must end the input. */
  function ParseOffset(bytes: string, cursor: nat): (r: Option<Offset>) {
    if HasAt(bytes, cursor, 'Z') && cursor + 1 == |bytes| then Some(Zulu)
    else if (HasAt(bytes, cursor, '+') || HasAt(bytes, cursor, '-')) && cursor + 6 == |bytes| then
      var hour, minute := ParseDigits(bytes, cursor + 1, 2), ParseDigits(bytes, cursor + 4, 2);
      if HasAt(bytes, cursor + 3, ':') && hour.Some? && minute.Some? && hour.value <= 23 && minute.value <= 59
      then Some(Numeric(bytes[cursor] == '+', hour.value, minute.value))
      else None
    else None
  }

  /** The position after the digits that start at `i`. */
  function DigitRun(bytes: string, i: nat): (r: nat)
    requires i <= |bytes|
    ensures i <= r <= |bytes| && AllDigits(bytes[i..r])
    ensures r < |bytes| ==> !IsDigit(bytes[r])
    decreases |bytes| - i
  {
    if i < |bytes| && IsDigit(bytes[i]) then
      var r := DigitRun(bytes, i + 1);
      assert bytes[i..r] == [bytes[i]] + bytes[i + 1..r];
      r
    else i
  }

  // ---------- Recognition as a function, against the grammar ----------

  datatype Head = Head(date: Date, hour: nat, minute: nat, second: nat)

  datatype Tail = Tail(fraction: Option<string>, offset: Offset)

  ghost function RecognizedDate(bytes: string): Option<Date> {
    var year, month, day := ParseDigits(bytes, 0, 4), ParseDigits(bytes, 5, 2), ParseDigits(bytes, 8, 2);
    if !HasAt(bytes, 4, '-') || !HasAt(bytes, 7, '-') || year.None? || month.None? || day.None? then None
    else
      var date := Date(year.value, month.value, day.value);
      if date.Valid() then Some(date) else None
  }

  ghost function RecognizedHead(bytes: string): Option<Head> {
    var date := RecognizedDate(bytes);
    var hour, minute, second := ParseDigits(bytes, 11, 2), ParseDigits(bytes, 14, 2), ParseDigits(bytes, 17, 2);
    if date.None? || !HasAt(bytes, 10, 'T') || !HasAt(bytes, 13, ':') || !HasAt(bytes, 16, ':')
       || hour.None? || minute.None? || second.None?
       || hour.value > 23 || minute.value > 59 || second.value > 59 then None
    else Some(Head(date.value, hour.value, minute.value, second.value))
  }

  ghost function RecognizedTail(bytes: string): Option<Tail>
    requires |bytes| >= 20
  {
    var cursor := if bytes[19] == '.' then DigitRun(bytes, 20) else 19;
    var fraction := if bytes[19] == '.' then Some(bytes[20..cursor]) else None;
    var offset := ParseOffset(bytes, cursor);
    if fraction == Some("") || offset.None? then None else Some(Tail(fraction, offset.value))
  }

  ghost function Recognized(bytes: string): Option<DateTime> {
    if |bytes| < 20 then None
    else
      match (RecognizedHead(bytes), RecognizedTail(bytes))
      case (Some(h), Some(t)) => Some(DateTime(h.date, h.hour, h.minute, h.second, t.fraction, t.offset))
      case _ => None
  }

  lemma ReadBack(bytes: string, start: nat, length: nat)
    requires ParseDigits(bytes, start, length).Some?
    ensures bytes[start..start + length] == Digits(ParseDigits(bytes, start, length).value, length)
    ensures ParseDigits(bytes, start, length).value < Pow10(length)
  {
    DigitsWritten(bytes[start..start + length]);
  }

  // ---------- What is recognized is printed ----------

  lemma OffsetSound(bytes: string, cursor: nat)
    requires cursor <= |bytes| && ParseOffset(bytes, cursor).Some?
    ensures ParseOffset(bytes, cursor).value.Valid()
    ensures bytes[cursor..] == ParseOffset(bytes, cursor).value.Printed()
  {
    var o := ParseOffset(bytes, cursor).value;
    if o.Numeric? {
      ReadBack(bytes, cursor + 1, 2);
      ReadBack(bytes, cursor + 4, 2);
      CutOffset(bytes, cursor);
    }
  }

  lemma CutAt(s: string, i: nat, m: nat, j: nat)
    requires i <= m <= j <= |s|
    ensures s[i..j] == s[i..m] + s[m..j]
    ensures j == m + 1 ==> s[m..j] == [s[m]]
  {}

  lemma CutOffset(bytes: string, c: nat)
    requires |bytes| == c + 6
    ensures bytes[c..] == [bytes[c]] + bytes[c + 1..c + 3] + [bytes[c + 3]] + bytes[c + 4..c + 6]
  {
    CutAt(bytes, c, c, c + 1);
    CutAt(bytes, c, c + 1, c + 3);
    CutAt(bytes, c, c + 3, c + 4);
    CutAt(bytes, c, c + 4, c + 6);
    assert bytes[c..] == bytes[c..c + 6] && bytes[c..c + 1] == [bytes[c]];
  }

  lemma CutThree(bytes: string, i: nat, w: nat, sep: char)
    requires i + w + 6 <= |bytes| && bytes[i + w] == sep == bytes[i + w + 3]
    ensures bytes[i..i + w + 6]
         == Joined(bytes[i..i + w], sep, bytes[i + w + 1..i + w + 3], bytes[i + w + 4..i + w + 6])
  {
    CutAt(bytes, i, i + w, i + w + 1);
    CutAt(bytes, i, i + w + 1, i + w + 3);
    CutAt(bytes, i, i + w + 3, i + w + 4);
    CutAt(bytes, i, i + w + 4, i + w + 6);
  }

  lemma DateSound(bytes: string)
    requires RecognizedDate(bytes).Some?
    ensures var d := RecognizedDate(bytes).value;
      && |bytes| >= 10 && d.Valid() && 0 <= d.year <= 9999
      && bytes[0..10] == Joined(Digits(d.year, 4), '-', Digits(d.month, 2), Digits(d.day, 2))
  {
    assert Pow10(4) == 10_000;
    ReadBack(bytes, 0, 4);
    ReadBack(bytes, 5, 2);
    ReadBack(bytes, 8, 2);
    CutThree(bytes, 0, 4, '-');
  }

  lemma TimeSound(bytes: string)
    requires RecognizedHead(bytes).Some?
    ensures var h := RecognizedHead(bytes).value;
      && |bytes| >= 19
      && bytes[11..19] == Joined(Digits(h.hour, 2), ':', Digits(h.minute, 2), Digits(h.second, 2))
  {
    ReadBack(bytes, 11, 2);
    ReadBack(bytes, 14, 2);
    ReadBack(bytes, 17, 2);
    CutThree(bytes, 11, 2, ':');
  }

  lemma TailSound(bytes: string)
    requires |bytes| >= 20 && RecognizedTail(bytes).Some?
    ensures var t := RecognizedTail(bytes).value;
      && t.offset.Valid() && (t.fraction.Some? ==> t.fraction.value != "" && AllDigits(t.fraction.value))
      && bytes[19..] == (if t.fraction.Some? then "." + t.fraction.value else "") + t.offset.Printed()
  {
    var cursor := if bytes[19] == '.' then DigitRun(bytes, 20) else 19;
    OffsetSound(bytes, cursor);
    if bytes[19] == '.' {
      assert bytes[19..] == "." + bytes[20..cursor] + bytes[cursor..];
    }
  }

  lemma HeadSound(bytes: string)
    requires RecognizedHead(bytes).Some?
    ensures var h := RecognizedHead(bytes).value;
      && |bytes| >= 19 && h.date.Valid() && 0 <= h.date.year <= 9999
      && h.hour <= 23 && h.minute <= 59 && h.second <= 59
      && bytes[0..10] == Joined(Digits(h.date.year, 4), '-', Digits(h.date.month, 2), Digits(h.date.day, 2))
      && bytes[10] == 'T'
      && bytes[11..19] == Joined(Digits(h.hour, 2), ':', Digits(h.minute, 2), Digits(h.second, 2))
  {
    DateSound(bytes);
    TimeSound(bytes);
  }

  lemma Regrouped(a: string, b: string, c: string)
    ensures a + b + c == a + (b + c)
  {}

  lemma RecognizedSound(bytes: string, t: DateTime)
    requires Recognized(bytes) == Some(t)
    ensures t.Valid() && bytes == t.Printed()
  {
    HeadSound(bytes);
    TailSound(bytes);
    assert t.Valid();
    Reassembled(bytes, t);
  }

  lemma Reassembled(bytes: string, t: DateTime)
    requires t.Valid() && |bytes| >= 19 && bytes[10] == 'T'
    requires bytes[0..10] == t.PrintedDate() && bytes[11..19] == t.PrintedTime()
    requires bytes[19..] == t.PrintedFraction() + t.offset.Printed()
    ensures bytes == t.Printed()
  {
    var head, fraction, offset := t.PrintedHead(), t.PrintedFraction(), t.offset.Printed();
    CutHead(bytes);
    assert bytes == head + (fraction + offset);
    Regrouped(head, fraction, offset);
  }

  lemma CutHead(bytes: string)
    requires |bytes| >= 19 && bytes[10] == 'T'
    ensures bytes == (bytes[0..10] + "T" + bytes[11..19]) + bytes[19..]
  {
    CutAt(bytes, 0, 10, 11);
    CutAt(bytes, 0, 11, 19);
    CutAt(bytes, 0, 19, |bytes|);
    assert bytes == bytes[0..|bytes|] && bytes[19..|bytes|] == bytes[19..];
  }

  // ---------- What is printed is recognized ----------

  /** A number that stands inside the middle part is read there. */
  lemma ReadInside(before: string, middle: string, after: string, i: nat, n: nat, width: nat)
    requires i + width <= |middle| && middle[i..i + width] == Digits(n, width) && n < Pow10(width)
    ensures ParseDigits(before + middle + after, |before| + i, width) == Some(n)
  {
    var bytes := before + middle + after;
    assert bytes[|before| + i..|before| + i + width] == middle[i..i + width];
    DigitsRead(n, width);
  }

  lemma CharInside(before: string, middle: string, after: string, i: nat)
    requires i < |middle|
    ensures HasAt(before + middle + after, |before| + i, middle[i])
  {}

  lemma JoinedFields(a: string, sep: char, b: string, c: string)
    requires |b| == |c| == 2
    ensures var r, w := Joined(a, sep, b, c), |a|;
      && |r| == w + 6 && r[0..w] == a && r[w] == sep && r[w + 1..w + 3] == b
      && r[w + 3] == sep && r[w + 4..w + 6] == c
  {}

  /** `middle` holds a number of `w` digits and two of two digits, with `sep` between them. */
  predicate HoldsThree(middle: string, sep: char, l: nat, w: nat, m: nat, n: nat) {
    && |middle| == w + 6 && middle[0..w] == Digits(l, w) && middle[w] == sep
    && middle[w + 1..w + 3] == Digits(m, 2) && middle[w + 3] == sep && middle[w + 4..w + 6] == Digits(n, 2)
  }

  /** They are found again in the text around them. */
  lemma ThreeRead(before: string, middle: string, after: string, sep: char, l: nat, w: nat, m: nat, n: nat)
    requires HoldsThree(middle, sep, l, w, m, n) && l < Pow10(w) && m < Pow10(2) && n < Pow10(2)
    ensures var bytes, i := before + middle + after, |before|;
      && ParseDigits(bytes, i, w) == Some(l) && HasAt(bytes, i + w, sep)
      && ParseDigits(bytes, i + w + 1, 2) == Some(m) && HasAt(bytes, i + w + 3, sep)
      && ParseDigits(bytes, i + w + 4, 2) == Some(n)
  {
    ReadInside(before, middle, after, 0, l, w);
    CharInside(before, middle, after, w);
    ReadInside(before, middle, after, w + 1, m, 2);
    CharInside(before, middle, after, w + 3);
    ReadInside(before, middle, after, w + 4, n, 2);
  }

  lemma DateComplete(t: DateTime, rest: string)
    requires t.Valid()
    ensures |t.PrintedDate()| == 10 && RecognizedDate(t.PrintedDate() + rest) == Some(t.date)
  {
    assert Pow10(4) == 10_000 && Pow10(2) == 100;
    assert "" + t.PrintedDate() + rest == t.PrintedDate() + rest;
    JoinedFields(Digits(t.date.year, 4), '-', Digits(t.date.month, 2), Digits(t.date.day, 2));
    ThreeRead("", t.PrintedDate(), rest, '-', t.date.year, 4, t.date.month, t.date.day);
  }

  lemma HeadRegrouped(date: string, time: string, tail: string)
    ensures date + "T" + time + tail == date + ("T" + time + tail) == date + "T" + (time + tail)
  {}

  lemma HeadComplete(t: DateTime, tail: string)
    requires t.Valid()
    ensures |t.PrintedHead()| == 19
    ensures RecognizedHead(t.PrintedHead() + tail) == Some(Head(t.date, t.hour, t.minute, t.second))
  {
    var date, time := t.PrintedDate(), t.PrintedTime();
    HeadRegrouped(date, time, tail);
    DateComplete(t, "T" + time + tail);
    CharInside(date, "T", time + tail, 0);
    assert Pow10(2) == 100;
    JoinedFields(Digits(t.hour, 2), ':', Digits(t.minute, 2), Digits(t.second, 2));
    ThreeRead(date + "T", time, tail, ':', t.hour, 2, t.minute, t.second);
  }

  lemma OffsetFields(sign: char, h: string, m: string)
    requires |h| == |m| == 2
    ensures var r := [sign] + h + [':'] + m;
      |r| == 6 && r[0] == sign && r[1..3] == h && r[3] == ':' && r[4..6] == m
  {}

  lemma OffsetComplete(before: string, o: Offset)
    requires o.Valid()
    ensures ParseOffset(before + o.Printed(), |before|) == Some(o)
  {
    if o.Numeric? {
      var h, m := Digits(o.hour, 2), Digits(o.minute, 2);
      var printed := [if o.plus then '+' else '-'] + h + [':'] + m;
      assert o.Printed() == printed && before + printed + "" == before + printed;
      OffsetFields(printed[0], h, m);
      assert Pow10(2) == 100;
      CharInside(before, printed, "", 0);
      ReadInside(before, printed, "", 1, o.hour, 2);
      CharInside(before, printed, "", 3);
      ReadInside(before, printed, "", 4, o.minute, 2);
    }
  }

  lemma {:induction false} RunStops(bytes: string, i: nat, j: nat)
    requires i <= j <= |bytes| && AllDigits(bytes[i..j])
    requires j < |bytes| ==> !IsDigit(bytes[j])
    ensures DigitRun(bytes, i) == j
    decreases j - i
  {
    if i < j {
      assert bytes[i..j][0] == bytes[i] && bytes[i] in bytes[i..j];
      assert bytes[i + 1..j] == bytes[i..j][1..];
      RunStops(bytes, i + 1, j);
    }
  }

  lemma OffsetStarts(o: Offset)
    requires o.Valid()
    ensures o.Printed() != "" && !IsDigit(o.Printed()[0]) && o.Printed()[0] != '.'
  {}

  lemma TailComplete(head: string, t: DateTime)
    requires t.Valid() && |head| == 19
    ensures var bytes := head + t.PrintedFraction() + t.offset.Printed();
      |bytes| >= 20 && RecognizedTail(bytes) == Some(Tail(t.fraction, t.offset))
  {
    var fraction, offset := t.PrintedFraction(), t.offset.Printed();
    var bytes, end := head + fraction + offset, 19 + |fraction|;
    OffsetComplete(head + fraction, t.offset);
    OffsetStarts(t.offset);
    assert bytes[end] == offset[0];
    if t.fraction.Some? {
      assert bytes[19] == '.' && bytes[20..end] == t.fraction.value;
      RunStops(bytes, 20, end);
    }
  }

  lemma RecognizedComplete(t: DateTime)
    requires t.Valid()
    ensures Recognized(t.Printed()) == Some(t)
  {
    var fraction, offset := t.PrintedFraction(), t.offset.Printed();
    HeadComplete(t, fraction + offset);
    TailComplete(t.PrintedHead(), t);
    Regrouped(t.PrintedHead(), fraction, offset);
    assert t.Printed() == t.PrintedHead() + (fraction + offset) == t.PrintedHead() + fraction + offset;
  }

  lemma RecognizedIff(bytes: string, t: DateTime)
    ensures Recognized(bytes) == Some(t) <==> t.Valid() && bytes == t.Printed()
  {
    if Recognized(bytes) == Some(t) {
      RecognizedSound(bytes, t);
    }
    if t.Valid() {
      RecognizedComplete(t);
    }
  }

  /** Every instant can be written with every offset, as long as the local year has four
      digits; parsing gives it back. */
  lemma EveryInstantPrints(instant: int, offset: Offset) returns (t: DateTime)
    requires offset.Valid()
    requires YEAR_0000 * 86_400 <= instant + offset.Seconds() < YEAR_10000 * 86_400
    ensures t.Valid() && t.offset == offset && t.Instant() == instant
    ensures Recognized(t.Printed()) == Some(t)
  {
    var local := instant + offset.Seconds();
    var days, rest := local / 86_400, local % 86_400;
    var date := EveryDayHasDate(days);
    CivilIsCounted(date);
    FourDigitYears(date);
    t := DateTime(date, rest / 3600, rest % 3600 / 60, rest % 60, None, offset);
    SecondsSplit(rest);
    RecognizedComplete(t);
  }

  lemma SecondsSplit(rest: nat)
    requires rest < 86_400
    ensures rest / 3600 * 3600 + rest % 3600 / 60 * 60 + rest % 60 == rest
    ensures rest / 3600 <= 23 && rest % 3600 / 60 <= 59 && rest % 60 <= 59
  {
    var h := rest / 3600;
    var r := rest - h * 3600;
    assert rest % 3600 == r;
    assert rest % 60 == r % 60 by {
      assert rest == 60 * (60 * h) + r;
    }
  }

  // ---------- What an instant is ----------

  /** The same fields with "Z" for the offset. */
  function AtZulu(t: DateTime): DateTime {
    t.(offset := Zulu)
  }

  /** A local time ahead of UTC by an offset is an earlier instant than the same time in UTC, and
      one behind it a later instant. */
  lemma OffsetShifts(t: DateTime, hour: nat, minute: nat)
    requires t.Valid()
    ensures t.offset == Numeric(true, hour, minute) ==>
      t.Instant() == AtZulu(t).Instant() - (hour * 3600 + minute * 60)
    ensures t.offset == Numeric(false, hour, minute) ==>
      t.Instant() == AtZulu(t).Instant() + (hour * 3600 + minute * 60)
  {}

  /** One more second, minute or hour, with no carry. */
  lemma FieldsCount(t: DateTime)
    requires t.Valid()
    ensures t.second < 59 ==> t.(second := t.second + 1).Instant() == t.Instant() + 1
    ensures t.minute < 59 ==> t.(minute := t.minute + 1).Instant() == t.Instant() + 60
    ensures t.hour < 23 ==> t.(hour := t.hour + 1).Instant() == t.Instant() + 3600
    ensures t.(date := NextDay(t.date)).Valid() ==> t.(date := NextDay(t.date)).Instant() == t.Instant() + 86_400
  {
    NextDayCounted(t.date);
  }

  lemma TwoDigits(n: nat)
    requires n < 100
    ensures Digits(n, 2) == [DigitChar(n / 10), DigitChar(n % 10)]
  {
    assert Digits(n / 10, 1) == Digits(n / 10 / 10, 0) + [DigitChar(n / 10 % 10)];
  }

  lemma FourDigits(n: nat)
    requires n < 10_000
    ensures Digits(n, 4) == [DigitChar(n / 1000), DigitChar(n / 100 % 10), DigitChar(n / 10 % 10), DigitChar(n % 10)]
  {
    var m := n / 10;
    assert Digits(n, 4) == Digits(m, 3) + [DigitChar(n % 10)];
    assert Digits(m, 3) == Digits(m / 10, 2) + [DigitChar(m % 10)];
    TwoDigits(m / 10);
    assert m / 10 == n / 100 && n / 100 / 10 == n / 1000;
  }

  lemma DatePrints(t: DateTime)
    requires t.Valid() && t.date == Date(1985, 4, 12)
    ensures t.PrintedDate() == "1985-04-12"
  {
    FourDigits(1985);
    TwoDigits(4);
    TwoDigits(12);
  }

  lemma TimePrints(t: DateTime)
    requires t.Valid() && t.hour == 23 && t.minute == 20 && t.second == 50
    ensures t.PrintedTime() == "23:20:50"
  {
    TwoDigits(23);
    TwoDigits(20);
    TwoDigits(50);
  }

  function Example(): DateTime {
    DateTime(Date(1985, 4, 12), 23, 20, 50, Some("52"), Zulu)
  }

  lemma ExamplePrints()
    ensures Example().Valid() && Example().Printed() == "1985-04-12T23:20:50.52Z"
  {
    DatePrints(Example());
    TimePrints(Example());
    assert Example().PrintedFraction() == ".52";
    Spelled("1985-04-12", "23:20:50");
  }

  lemma Spelled(date: string, time: string)
    requires date == "1985-04-12" && time == "23:20:50"
    ensures date + "T" + time + ".52" + "Z" == "1985-04-12T23:20:50.52Z"
  {}

  lemma ExampleInstant()
    ensures Example().Valid() && Example().Instant() == 482_196_050
  {
    ExampleDay();
    assert Example().Instant() == 5580 * 86_400 + 23 * 3600 + 20 * 60 + 50;
  }

  lemma ExampleDay()
    ensures DayNumber(Date(1985, 4, 12)) == 5580
  {
    CivilExample();
    CivilIsCounted(Date(1985, 4, 12));
  }

  lemma CivilExample()
    ensures DaysFromCivil(Date(1985, 4, 12)) == 5580
  {
    assert TruncDiv(1985, 400) == 4;
    assert 385 / 4 == 96 && 385 / 100 == 3 && (153 * 1 + 2) / 5 == 31;
  }

  /** The first example of section 5.8 of RFC 3339. */
  lemma ExampleReads()
    ensures Recognized("1985-04-12T23:20:50.52Z") == Some(Example())
    ensures Example().Valid() && Example().Instant() == 482_196_050
  {
    ExamplePrints();
    ExampleInstant();
    RecognizedComplete(Example());
  }
}
