/** The timestamp arithmetic of `SheetGrabber.trim_video`: "M:SS" strings to seconds. */
module Timestamps {
  import opened Wrappers

  predicate IsDigit(c: char) { '0' <= c <= '9' }

  /** `str.isdigit()` over ASCII: non-empty and every character a digit. */
  predicate IsDigitString(s: string) {
    |s| > 0 && forall i :: 0 <= i < |s| ==> IsDigit(s[i])
  }

  /** `s.count(c)` */
  function Count(s: string, c: char): (n: nat)
    ensures n <= |s|
    ensures n == 0 <==> c !in s
  {
    if s == [] then 0 else (if s[0] == c then 1 else 0) + Count(s[1..], c)
  }

  /** `''.join(s.split(c))`: `s` with every `c` taken out. */
  function Without(s: string, c: char): (r: string)
    ensures c !in r
    ensures |r| == |s| - Count(s, c)
  {
    if s == [] then [] else (if s[0] == c then [] else [s[0]]) + Without(s[1..], c)
  }

  /** Position of the first `c` in `s`. */
  function IndexOf(s: string, c: char): (i: nat)
    requires c in s
    ensures i < |s| && s[i] == c && c !in s[..i]
  {
    if s[0] == c then 0 else 1 + IndexOf(s[1..], c)
  }

  function DigitValue(c: char): (d: nat)
    requires IsDigit(c)
    ensures d < 10
  {
    c as int - '0' as int
  }

  /** Value of a string of decimal digits, most significant first. */
  function DecimalValue(s: string): nat
    requires forall i :: 0 <= i < |s| ==> IsDigit(s[i])
  {
    if s == [] then 0
    else DecimalValue(s[..|s| - 1]) * 10 + DigitValue(s[|s| - 1])
  }

  const InvalidTimestamp: string := "Invalid timestamp given"

  /** `int(s)` on the strings the guard lets through (digits, possibly none):
      anything but a non-empty digit string raises. */
  function IntOf(s: string): (r: Result<nat, Exception>)
    ensures r.Ok? <==> IsDigitString(s)
    ensures r.Err? ==> r.error == ValueError("invalid literal for int() with base 10: '" + s + "'")
  {
    if IsDigitString(s) then Ok(DecimalValue(s))
    else Err(ValueError("invalid literal for int() with base 10: '" + s + "'"))
  }

  /** The guard of line 71: exactly one colon, and what is left is digits. */
  predicate PassesGuard(t: string) {
    Count(t, ':') == 1 && IsDigitString(Without(t, ':'))
  }

  /** The minutes and seconds fields of `t`: `t.split(':')[0]` and `[1]`. */
  function Fields(t: string): (f: (string, string))
    requires ':' in t
  {
    var i := IndexOf(t, ':');
    (t[..i], t[i + 1..])
  }

  /** Lines 73-74 for one timestamp that passed the guard: `int(m) * 60 + int(s)`. */
  function GuardedSeconds(t: string): Result<nat, Exception>
    requires PassesGuard(t)
  {
    var (m, s) := Fields(t);
    match IntOf(m)
    case Err(e) => Err(e)
    case Ok(mins) =>
      match IntOf(s)
      case Err(e) => Err(e)
      case Ok(secs) => Ok(mins * 60 + secs)
  }

  /** Lines 70-74 of `trim_video`: validate both timestamps, then convert
      start and end to seconds. Neither `secs < 60` nor `start < end` is checked. */
  function TrimSeconds(start: string, end: string): Result<(nat, nat), Exception>
  {
    if !PassesGuard(start) || !PassesGuard(end) then Err(ValueError(InvalidTimestamp))
    else
      match GuardedSeconds(start)
      case Err(e) => Err(e)
      case Ok(a) =>
        match GuardedSeconds(end)
        case Err(e) => Err(e)
        case Ok(b) => Ok((a, b))
  }

  /** A timestamp the conversion accepts: two non-empty digit fields around one colon. */
  predicate WellFormed(t: string) {
    ':' in t && IsDigitString(Fields(t).0) && IsDigitString(Fields(t).1)
  }

  /** Seconds of a well-formed timestamp, as the user reads it. */
  function Seconds(t: string): nat
    requires WellFormed(t)
  {
    DecimalValue(Fields(t).0) * 60 + DecimalValue(Fields(t).1)
  }

  // ---------------------------------------------------------------- lemmas

  lemma {:induction false} CountSplit(a: string, b: string, c: char)
    ensures Count(a + b, c) == Count(a, c) + Count(b, c)
  {
    if a != [] {
      assert (a + b)[0] == a[0] && (a + b)[1..] == a[1..] + b;
      CountSplit(a[1..], b, c);
      assert Count(a + b, c) == (if a[0] == c then 1 else 0) + Count(a[1..] + b, c);
    } else {
      assert a + b == b;
    }
  }

  lemma {:induction false} WithoutSplitAppend(a: string, b: string, c: char)
    ensures Without(a + b, c) == Without(a, c) + Without(b, c)
  {
    if a != [] {
      assert (a + b)[0] == a[0] && (a + b)[1..] == a[1..] + b;
      WithoutSplitAppend(a[1..], b, c);
      assert Without(a + b, c) == (if a[0] == c then [] else [a[0]]) + Without(a[1..] + b, c);
    } else {
      assert a + b == b;
    }
  }

  lemma {:induction false} WithoutNone(s: string, c: char)
    requires c !in s
    ensures Without(s, c) == s
  {
    if s != [] {
      WithoutNone(s[1..], c);
    }
  }

  /** Around the first colon, `t` splits into the two fields and the colon itself. */
  lemma {:induction false} WithoutSplit(t: string, i: nat)
    requires i < |t| && t[i] == ':' && ':' !in t[..i]
    ensures t == t[..i] + [':'] + t[i + 1..]
    ensures Count(t, ':') == 1 + Count(t[i + 1..], ':')
    ensures Without(t, ':') == t[..i] + Without(t[i + 1..], ':')
  {
    assert t == t[..i] + [':'] + t[i + 1..];
    CountAround(t[..i], t[i + 1..]);
    WithoutAround(t[..i], t[i + 1..]);
  }

  lemma {:induction false} CountAround(a: string, b: string)
    requires ':' !in a
    ensures Count(a + [':'] + b, ':') == 1 + Count(b, ':')
  {
    CountSplit(a + [':'], b, ':');
    CountSplit(a, [':'], ':');
  }

  lemma {:induction false} WithoutAround(a: string, b: string)
    requires ':' !in a
    ensures Without(a + [':'] + b, ':') == a + Without(b, ':')
  {
    WithoutNone(a, ':');
    assert Without([':'], ':') == [] by {
      assert [':'][1..] == [];
    }
    WithoutSplitAppend(a, [':'], ':');
    assert Without(a + [':'], ':') == a;
    WithoutSplitAppend(a + [':'], b, ':');
  }

  lemma DigitsConcat(m: string, s: string)
    requires IsDigitString(m) && IsDigitString(s)
    ensures IsDigitString(m + s) && ':' !in s
  {
    forall k | 0 <= k < |m + s| ensures IsDigit((m + s)[k]) {
      if k >= |m| { assert (m + s)[k] == s[k - |m|]; } else { assert (m + s)[k] == m[k]; }
    }
  }

  /** A well-formed timestamp passes the guard of line 71. */
  lemma {:induction false} WellFormedPassesGuard(t: string)
    requires WellFormed(t)
    ensures PassesGuard(t)
  {
    var i := IndexOf(t, ':');
    var m, s := t[..i], t[i + 1..];
    assert Fields(t) == (m, s);
    WithoutSplit(t, i);
    DigitsConcat(m, s);
    WithoutNone(s, ':');
  }

  /** The conversion succeeds exactly on well-formed timestamps (the guard alone
      also lets through "5:" and ":30", whose empty field `int` rejects), and
      then yields minutes * 60 + seconds. */
  lemma {:induction false} TrimSecondsCorrect(start: string, end: string)
    ensures TrimSeconds(start, end).Ok? <==> WellFormed(start) && WellFormed(end)
    ensures TrimSeconds(start, end).Ok? ==>
      TrimSeconds(start, end).value == (Seconds(start), Seconds(end))
    ensures TrimSeconds(start, end).Err? ==> TrimSeconds(start, end).error.ValueError?
  {
    TimestampCorrect(start);
    TimestampCorrect(end);
  }

  /** One timestamp: it converts exactly when well formed, to its seconds. */
  lemma TimestampCorrect(t: string)
    ensures WellFormed(t) ==> PassesGuard(t)
    ensures PassesGuard(t) ==> (GuardedSeconds(t).Ok? <==> WellFormed(t))
    ensures PassesGuard(t) && WellFormed(t) ==> GuardedSeconds(t) == Ok(Seconds(t))
    ensures PassesGuard(t) && GuardedSeconds(t).Err? ==> GuardedSeconds(t).error.ValueError?
  {
    if WellFormed(t) { WellFormedPassesGuard(t); }
  }

  // ------------------------------------------------- formatting round trip

  function DigitChar(d: nat): (c: char)
    requires d < 10
    ensures IsDigit(c) && (c - '0') as nat == d
  {
    ('0' as int + d) as char
  }

  /** Decimal rendering of `n`, without leading zeros. */
  function Decimal(n: nat): (s: string)
    ensures IsDigitString(s)
    ensures ':' !in s
  {
    if n < 10 then [DigitChar(n)] else Decimal(n / 10) + [DigitChar(n % 10)]
  }

  /** The seconds field, padded to two digits. */
  function TwoDigits(s: nat): string {
    (if s < 10 then "0" else "") + Decimal(s)
  }

  /** Renders `sec` as "M:SS", the form the command line documents. */
  function Format(sec: nat): string {
    Decimal(sec / 60) + ":" + TwoDigits(sec % 60)
  }

  lemma {:induction false} DecimalRoundTrip(n: nat)
    ensures DecimalValue(Decimal(n)) == n
  {
    if n >= 10 {
      DecimalRoundTrip(n / 10);
      var s := Decimal(n);
      assert s[..|s| - 1] == Decimal(n / 10);
    }
  }

  lemma {:induction false} LeadingZero(s: string)
    requires forall i :: 0 <= i < |s| ==> IsDigit(s[i])
    ensures DecimalValue("0" + s) == DecimalValue(s)
  {
    if s != [] {
      var t := "0" + s;
      assert t[..|t| - 1] == "0" + s[..|s| - 1];
      LeadingZero(s[..|s| - 1]);
    }
  }

  /** Every number of seconds, rendered as "M:SS", converts back to itself. */
  lemma {:induction false} FormatRoundTrip(sec: nat)
    ensures WellFormed(Format(sec)) && Seconds(Format(sec)) == sec
    ensures TrimSeconds(Format(sec), Format(sec)) == Ok((sec, sec))
  {
    FormatFields(sec);
    TwoDigitsValue(sec % 60);
    DecimalRoundTrip(sec / 60);
    TrimSecondsCorrect(Format(sec), Format(sec));
  }

  lemma {:induction false} FormatFields(sec: nat)
    ensures ':' in Format(sec) && Fields(Format(sec)) == (Decimal(sec / 60), TwoDigits(sec % 60))
  {
    var m, s := Decimal(sec / 60), TwoDigits(sec % 60);
    var t := Format(sec);
    assert t == m + ":" + s;
    assert t[|m|] == ':' && t[..|m|] == m && t[|m| + 1..] == s;
    IndexOfFirst(t, ':', |m|);
  }

  lemma TwoDigitsValue(s: nat)
    ensures IsDigitString(TwoDigits(s)) && DecimalValue(TwoDigits(s)) == s
  {
    DecimalRoundTrip(s);
    if s < 10 {
      assert TwoDigits(s) == "0" + Decimal(s);
      DigitsConcat("0", Decimal(s));
      LeadingZero(Decimal(s));
    } else {
      assert TwoDigits(s) == Decimal(s);
    }
  }

  lemma {:induction false} IndexOfFirst(s: string, c: char, i: nat)
    requires i < |s| && s[i] == c && c !in s[..i]
    ensures IndexOf(s, c) == i
  {
    if i > 0 {
      assert s[0] in s[..i];
      assert s[1..][..i - 1] == s[..i][1..];
      IndexOfFirst(s[1..], c, i - 1);
    }
  }

  /** Seconds fields of 60 or more, and an end before the start, are accepted:
      "2:00" to "0:75" converts to 120 s to 75 s. */
  lemma NoRangeChecks()
    ensures TrimSeconds("2:00", "0:75") == Ok((120, 75))
  {
    TwoMinutes();
    SeventyFiveSeconds();
    TrimSecondsCorrect("2:00", "0:75");
  }

  lemma TwoMinutes()
    ensures WellFormed("2:00") && Seconds("2:00") == 120
  {
    FormatRoundTrip(120);
    assert Format(120) == "2:00";
  }

  lemma SeventyFiveSeconds()
    ensures WellFormed("0:75") && Seconds("0:75") == 75
  {
    var t := "0:75";
    IndexOfFirst(t, ':', 1);
    assert t[..1] == "0" && t[2..] == "75";
    assert DecimalValue("75") == 75 by {
      assert "75"[..1] == "7";
    }
  }
}
