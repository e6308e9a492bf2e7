/** The timestamp texts the journals store and the history screens show: the stored
    form `%Y-%m-%d %H:%M:%S` that `datetime.strptime` reads back, and the displayed form
    `%d/%m/%Y %H:%M` the screens print and parse again when a row is clicked. */
module Stamps {
  import opened Common
  import opened Text

  datatype Stamp = Stamp(year: nat, month: nat, day: nat, hour: nat, minute: nat, second: nat)

  predicate Leap(y: nat) {
    y % 4 == 0 && (y % 100 != 0 || y % 400 == 0)
  }

  /** The number of days of a month of the Gregorian calendar. */
  function DaysIn(y: nat, m: nat): nat
    requires 1 <= m <= 12
  {
    if m == 2 then (if Leap(y) then 29 else 28)
    else if m == 4 || m == 6 || m == 9 || m == 11 then 30
    else 31
  }

  /** A moment `datetime` accepts: year 1 to 9999, a real calendar day, and a time of day. */
  predicate Valid(st: Stamp) {
    1 <= st.year <= 9999 && 1 <= st.month <= 12 && 1 <= st.day <= DaysIn(st.year, st.month) &&
    st.hour < 24 && st.minute < 60 && st.second < 60
  }

  predicate IsDigit(c: char) {
    '0' <= c <= '9'
  }

  function Dig(c: char): nat
    requires IsDigit(c)
  {
    c as int - '0' as int
  }

  /** The digit character of `d`, for `d` below ten. */
  function D(d: nat): char
    requires d < 10
  {
    DigitChar(d)
  }

  /** The two-digit number starting at `i`. */
  function Two(s: string, i: nat): nat
    requires i + 1 < |s| && IsDigit(s[i]) && IsDigit(s[i + 1])
  {
    10 * Dig(s[i]) + Dig(s[i + 1])
  }

  /** The four-digit number starting at `i`. */
  function Four(s: string, i: nat): nat
    requires i + 3 < |s| && IsDigit(s[i]) && IsDigit(s[i + 1]) && IsDigit(s[i + 2]) && IsDigit(s[i + 3])
  {
    100 * Two(s, i) + Two(s, i + 2)
  }

  /** The shape `dddd-dd-dd dd:dd:dd`. */
  predicate StoredShape(s: string) {
    |s| == 19 &&
    IsDigit(s[0]) && IsDigit(s[1]) && IsDigit(s[2]) && IsDigit(s[3]) && s[4] == '-' &&
    IsDigit(s[5]) && IsDigit(s[6]) && s[7] == '-' && IsDigit(s[8]) && IsDigit(s[9]) && s[10] == ' ' &&
    IsDigit(s[11]) && IsDigit(s[12]) && s[13] == ':' && IsDigit(s[14]) && IsDigit(s[15]) && s[16] == ':' &&
    IsDigit(s[17]) && IsDigit(s[18])
  }

  /** The shape `dd/dd/dddd dd:dd`. */
  predicate ShownShape(s: string) {
    |s| == 16 &&
    IsDigit(s[0]) && IsDigit(s[1]) && s[2] == '/' && IsDigit(s[3]) && IsDigit(s[4]) && s[5] == '/' &&
    IsDigit(s[6]) && IsDigit(s[7]) && IsDigit(s[8]) && IsDigit(s[9]) && s[10] == ' ' &&
    IsDigit(s[11]) && IsDigit(s[12]) && s[13] == ':' && IsDigit(s[14]) && IsDigit(s[15])
  }

  /** The fields of a text of the stored shape. */
  function StoredFields(s: string): Stamp
    requires StoredShape(s)
  {
    Stamp(Four(s, 0), Two(s, 5), Two(s, 8), Two(s, 11), Two(s, 14), Two(s, 17))
  }

  /** The fields of a text of the displayed shape; the seconds are 0. */
  function ShownFields(s: string): Stamp
    requires ShownShape(s)
  {
    Stamp(Four(s, 6), Two(s, 3), Two(s, 0), Two(s, 11), Two(s, 14), 0)
  }

  /** `strftime("%Y-%m-%d %H:%M:%S")`, the form every journal stores. */
  function Stored(st: Stamp): (s: string)
    requires Valid(st)
    ensures |s| == 19
  {
    [D(st.year / 100 / 10), D(st.year / 100 % 10), D(st.year % 100 / 10), D(st.year % 100 % 10), '-',
     D(st.month / 10), D(st.month % 10), '-', D(st.day / 10), D(st.day % 10), ' ',
     D(st.hour / 10), D(st.hour % 10), ':', D(st.minute / 10), D(st.minute % 10), ':',
     D(st.second / 10), D(st.second % 10)]
  }

  /** `strftime("%Y-%m-%d_%H-%M-%S")`, the form the backup and restore file names carry. */
  function FileStamp(st: Stamp): (s: string)
    requires Valid(st)
    ensures |s| == 19
  {
    [D(st.year / 100 / 10), D(st.year / 100 % 10), D(st.year % 100 / 10), D(st.year % 100 % 10), '-',
     D(st.month / 10), D(st.month % 10), '-', D(st.day / 10), D(st.day % 10), '_',
     D(st.hour / 10), D(st.hour % 10), '-', D(st.minute / 10), D(st.minute % 10), '-',
     D(st.second / 10), D(st.second % 10)]
  }

  /** `strftime("%d/%m/%Y %H:%M")`, the form the history tables show; the seconds are dropped. */
  function Shown(st: Stamp): (s: string)
    requires Valid(st)
    ensures |s| == 16
  {
    [D(st.day / 10), D(st.day % 10), '/', D(st.month / 10), D(st.month % 10), '/',
     D(st.year / 100 / 10), D(st.year / 100 % 10), D(st.year % 100 / 10), D(st.year % 100 % 10), ' ',
     D(st.hour / 10), D(st.hour % 10), ':', D(st.minute / 10), D(st.minute % 10)]
  }

  /** `datetime.strptime(s, "%Y-%m-%d %H:%M:%S")` on zero-padded fields; `None` is the
      `ValueError`. */
  function ParseStored(s: string): (r: Option<Stamp>)
    ensures r.Some? ==> Valid(r.value)
    ensures r.Some? <==> StoredShape(s) && Valid(StoredFields(s))
  {
    if StoredShape(s) && Valid(StoredFields(s)) then Some(StoredFields(s)) else None
  }

  /** `datetime.strptime(s, "%d/%m/%Y %H:%M")` on zero-padded fields. */
  function ParseShown(s: string): (r: Option<Stamp>)
    ensures r.Some? ==> Valid(r.value) && r.value.second == 0
  {
    if ShownShape(s) && Valid(ShownFields(s)) then Some(ShownFields(s)) else None
  }

  /** Two characters holding the digits of `n` read back as `n`. */
  lemma TwoBack(s: string, i: nat, n: nat)
    requires n < 100 && i + 1 < |s| && s[i] == D(n / 10) && s[i + 1] == D(n % 10)
    ensures IsDigit(s[i]) && IsDigit(s[i + 1]) && Two(s, i) == n
  {
  }

  /** Four characters holding the digits of `n` read back as `n`. */
  lemma FourBack(s: string, i: nat, n: nat)
    requires n < 10000 && i + 3 < |s|
    requires s[i] == D(n / 100 / 10) && s[i + 1] == D(n / 100 % 10) && s[i + 2] == D(n % 100 / 10) && s[i + 3] == D(n % 100 % 10)
    ensures IsDigit(s[i]) && IsDigit(s[i + 1]) && IsDigit(s[i + 2]) && IsDigit(s[i + 3]) && Four(s, i) == n
  {
    TwoBack(s, i, n / 100);
    TwoBack(s, i + 2, n % 100);
  }

  /** Reading the stored form back gives the same moment. */
  lemma {:induction false} ParseStoredRoundTrip(st: Stamp)
    requires Valid(st)
    ensures ParseStored(Stored(st)) == Some(st)
  {
    var s := Stored(st);
    FourBack(s, 0, st.year);
    TwoBack(s, 5, st.month);
    TwoBack(s, 8, st.day);
    TwoBack(s, 11, st.hour);
    TwoBack(s, 14, st.minute);
    TwoBack(s, 17, st.second);
    assert StoredFields(s) == st;
  }

  /** The digit character of a digit's value is that digit. */
  lemma DigitFront(c: char)
    requires IsDigit(c)
    ensures Dig(c) < 10 && D(Dig(c)) == c
  {
  }

  /** A two-digit field is written back as the same two characters. */
  lemma TwoFront(s: string, i: nat)
    requires i + 1 < |s| && IsDigit(s[i]) && IsDigit(s[i + 1])
    ensures Two(s, i) < 100 && D(Two(s, i) / 10) == s[i] && D(Two(s, i) % 10) == s[i + 1]
  {
    DigitFront(s[i]);
    DigitFront(s[i + 1]);
  }

  /** A four-digit field is written back as the same four characters. */
  lemma FourFront(s: string, i: nat)
    requires i + 3 < |s| && IsDigit(s[i]) && IsDigit(s[i + 1]) && IsDigit(s[i + 2]) && IsDigit(s[i + 3])
    ensures var n := Four(s, i);
            n < 10000 && D(n / 100 / 10) == s[i] && D(n / 100 % 10) == s[i + 1] && D(n % 100 / 10) == s[i + 2] &&
            D(n % 100 % 10) == s[i + 3]
  {
    TwoFront(s, i);
    TwoFront(s, i + 2);
    var n := Four(s, i);
    assert n / 100 == Two(s, i) && n % 100 == Two(s, i + 2);
  }

  /** The only texts that parse are the stored forms of valid moments: `ParseStored` and
      `Stored` are inverse on each other's range. */
  lemma {:induction false} ParseStoredCanonical(s: string)
    requires ParseStored(s).Some?
    ensures Stored(ParseStored(s).value) == s
  {
    var st := ParseStored(s).value;
    var t := Stored(st);
    FourFront(s, 0);
    TwoFront(s, 5);
    TwoFront(s, 8);
    TwoFront(s, 11);
    TwoFront(s, 14);
    TwoFront(s, 17);
    assert forall k :: 0 <= k < 19 ==> t[k] == s[k];
  }

  /** Reading the displayed form back gives the same minute. */
  lemma {:induction false} ParseShownRoundTrip(st: Stamp)
    requires Valid(st)
    ensures ParseShown(Shown(st)) == Some(st.(second := 0))
  {
    var s := Shown(st);
    FourBack(s, 6, st.year);
    TwoBack(s, 3, st.month);
    TwoBack(s, 0, st.day);
    TwoBack(s, 11, st.hour);
    TwoBack(s, 14, st.minute);
    assert ShownFields(s) == st.(second := 0);
  }

  /** `strftime("%Y-%m-%d %H:%M:%S")[:16]`: the stored form up to the minute, the key a row
      click looks for. */
  function MinuteKey(st: Stamp): (k: string)
    requires Valid(st)
    ensures |k| == 16
  {
    Stored(st)[..16]
  }

  /** Dropping the seconds does not change the minute key, so a stored text starts with the
      key of its own displayed minute. */
  lemma MinuteKeyIgnoresSeconds(st: Stamp)
    requires Valid(st)
    ensures MinuteKey(st.(second := 0)) == MinuteKey(st)
    ensures StartsWith(Stored(st), MinuteKey(st))
  {
  }
}
