/** The frontend's pure text helpers: `formatDuration`, which renders a number
    of seconds as a clock, and `sanitizeFilename`, which keeps a whitelist of
    characters and truncates. */
module ClientText {
  import opened Text

  /** A JavaScript value as `formatDuration` sees it: a finite number, or
      anything else (a string, null, undefined; NaN is falsy and behaves alike). */
  datatype JsValue = JsNumber(x: real) | JsOther

  /** `n.toString().padStart(2, '0')`. */
  function Pad2(n: nat): (r: string)
    ensures IsDigits(r)
    ensures n < 100 ==> |r| == 2
  {
    if n < 10 then "0" + NatToString(n) else NatToString(n)
  }

  /** The clock for a whole number of seconds: `H:MM:SS` from one hour on, `M:SS` below. */
  function Clock(total: nat): string {
    var hours := total / 3600;
    var minutes := (total % 3600) / 60;
    var seconds := total % 60;
    if hours > 0 then NatToString(hours) + ":" + Pad2(minutes) + ":" + Pad2(seconds)
    else NatToString(minutes) + ":" + Pad2(seconds)
  }

  /** `formatDuration(seconds)`: '0:00' for a falsy, non-number or negative
      value, otherwise the clock of the value rounded down. */
  function FormatDuration(v: JsValue): (r: string)
    ensures !v.JsNumber? || v.x <= 0.0 ==> r == "0:00" && r == Clock(0)
    ensures v.JsNumber? && v.x > 0.0 ==> r == Clock(v.x.Floor)
  {
    if !v.JsNumber? || v.x <= 0.0 then
      assert Clock(0) == "0" + ":" + "00";
      "0:00"
    else Clock(v.x.Floor)
  }

  /** `s.split(sep)`. */
  function SplitOn(s: string, sep: char): (r: seq<string>)
    ensures |r| >= 1
  {
    if s == [] then [[]]
    else
      var rest := SplitOn(s[1..], sep);
      if s[0] == sep then [[]] + rest else [[s[0]] + rest[0]] + rest[1..]
  }

  lemma {:induction false} SplitWithoutSeparator(a: string, sep: char)
    requires sep !in a
    ensures SplitOn(a, sep) == [a]
  {
    if a != [] {
      assert sep !in a[1..] by {
        forall i | 0 <= i < |a[1..]| ensures a[1..][i] != sep { assert a[1..][i] == a[i + 1]; }
      }
      SplitWithoutSeparator(a[1..], sep);
      assert [a[0]] + a[1..] == a;
    }
  }

  lemma {:induction false} SplitAtFirst(a: string, b: string, sep: char)
    requires sep !in a
    ensures SplitOn(a + [sep] + b, sep) == [a] + SplitOn(b, sep)
  {
    var s := a + [sep] + b;
    if a == [] {
      assert s[1..] == b;
    } else {
      assert s[1..] == a[1..] + [sep] + b;
      assert sep !in a[1..] by {
        forall i | 0 <= i < |a[1..]| ensures a[1..][i] != sep { assert a[1..][i] == a[i + 1]; }
      }
      SplitAtFirst(a[1..], b, sep);
      assert [a[0]] + a[1..] == a;
    }
  }

  lemma DigitsHaveNoColon(s: string)
    requires IsDigits(s)
    ensures ':' !in s
  {
    forall i | 0 <= i < |s| ensures s[i] != ':' {
      assert IsDigit(s[i]);
    }
  }

  lemma ParsePad2(n: nat)
    requires n < 100
    ensures ParseNat(Pad2(n)) == n
  {
    if n < 10 {
      var p := Pad2(n);
      assert p[..1] == "0";
      assert p[1] == DigitChar(n);
    } else {
      ParseNatToString(n);
    }
  }

  /** Reads a clock back: `M:SS` or `H:MM:SS` with decimal fields. */
  function ParseClock(s: string): Option<nat> {
    var f := SplitOn(s, ':');
    if |f| == 2 && IsDigits(f[0]) && IsDigits(f[1]) then Some(ParseNat(f[0]) * 60 + ParseNat(f[1]))
    else if |f| == 3 && IsDigits(f[0]) && IsDigits(f[1]) && IsDigits(f[2]) then
      Some(ParseNat(f[0]) * 3600 + ParseNat(f[1]) * 60 + ParseNat(f[2]))
    else None
  }

  /** The clock has three fields from one hour on and two below, every field
      after the first has two digits, and the fields read back give the total. */
  lemma ClockRoundTrip(total: nat)
    ensures var f := SplitOn(Clock(total), ':');
            |f| == (if total >= 3600 then 3 else 2) &&
            |f[|f| - 1]| == 2 && (|f| == 3 ==> |f[1]| == 2)
    ensures ParseClock(Clock(total)) == Some(total)
  {
    if total >= 3600 {
      HoursRoundTrip(total);
    } else {
      MinutesRoundTrip(total);
    }
  }

  lemma HoursRoundTrip(total: nat)
    requires total >= 3600
    ensures var f := SplitOn(Clock(total), ':');
            |f| == 3 && |f[1]| == 2 && |f[2]| == 2
    ensures ParseClock(Clock(total)) == Some(total)
  {
    var hours, minutes, seconds := total / 3600, (total % 3600) / 60, total % 60;
    ClockFields(total);
    HoursFields(total);
    ParsePad2(seconds);
    ParsePad2(minutes);
    ParseNatToString(hours);
    var f := SplitOn(Clock(total), ':');
    assert ParseNat(f[0]) == hours && ParseNat(f[1]) == minutes && ParseNat(f[2]) == seconds;
  }

  /** The three fields recombine to the total, with minutes and seconds below 60. */
  lemma ClockFields(total: nat)
    ensures (total / 3600) * 3600 + ((total % 3600) / 60) * 60 + total % 60 == total
    ensures (total % 3600) / 60 < 60 && total % 60 < 60
  {
    var h, r := total / 3600, total % 3600;
    assert total == h * 3600 + r;
    var m, s := r / 60, r % 60;
    assert r == m * 60 + s;
    assert total == (h * 60 + m) * 60 + s;
    assert total % 60 == s;
  }

  /** From one hour on, the clock splits into the hours and the padded minutes and seconds. */
  lemma HoursFields(total: nat)
    requires total >= 3600
    ensures SplitOn(Clock(total), ':') == [NatToString(total / 3600), Pad2((total % 3600) / 60), Pad2(total % 60)]
  {
    var hh, mm, ss := NatToString(total / 3600), Pad2((total % 3600) / 60), Pad2(total % 60);
    DigitsHaveNoColon(hh);
    DigitsHaveNoColon(mm);
    DigitsHaveNoColon(ss);
    assert Clock(total) == hh + [':'] + (mm + [':'] + ss);
    SplitAtFirst(hh, mm + [':'] + ss, ':');
    SplitAtFirst(mm, ss, ':');
    SplitWithoutSeparator(ss, ':');
  }

  lemma MinutesRoundTrip(total: nat)
    requires total < 3600
    ensures var f := SplitOn(Clock(total), ':');
            |f| == 2 && |f[1]| == 2
    ensures ParseClock(Clock(total)) == Some(total)
  {
    var minutes, seconds := total / 60, total % 60;
    var m, ss := NatToString(minutes), Pad2(seconds);
    DigitsHaveNoColon(m);
    DigitsHaveNoColon(ss);
    assert Clock(total) == m + [':'] + ss;
    SplitAtFirst(m, ss, ':');
    SplitWithoutSeparator(ss, ':');
    var f := SplitOn(Clock(total), ':');
    assert f == [m, ss];
    ParsePad2(seconds);
    ParseNatToString(minutes);
    assert ParseClock(Clock(total)) == Some(minutes * 60 + seconds);
  }

  /** Reading the rendered duration back gives the whole seconds of a
      positive number, and 0 for everything else. */
  lemma FormatDurationRoundTrip(v: JsValue)
    ensures ParseClock(FormatDuration(v)) == Some(if v.JsNumber? && v.x > 0.0 then v.x.Floor else 0)
  {
    if v.JsNumber? && v.x > 0.0 {
      ClockRoundTrip(v.x.Floor);
    } else {
      ClockRoundTrip(0);
    }
  }

  /** The characters `[a-z0-9._-]` with the case-insensitive flag. */
  predicate JsAllowed(c: char) {
    'a' <= c <= 'z' || 'A' <= c <= 'Z' || '0' <= c <= '9' || c == '.' || c == '_' || c == '-'
  }

  const MaxClientName: nat := 100

  /** The UTF-16 code units of one character: one above U+FFFF is a surrogate pair. */
  function Utf16Units(c: char): nat {
    if c as int > 0xFFFF then 2 else 1
  }

  /** `s.length` in JavaScript: the number of UTF-16 code units. */
  function Utf16Length(s: string): (n: nat)
    ensures n >= |s|
    ensures (forall i :: 0 <= i < |s| ==> s[i] as int <= 0xFFFF) ==> n == |s|
  {
    if s == [] then 0 else Utf16Units(s[0]) + Utf16Length(s[1..])
  }

  /** What the replacement makes of one character. The regular expression has
      no `u` flag, so it sees a character above U+FFFF as two code units and
      replaces each of them. */
  function ReplaceChar(c: char): (r: string)
    ensures |r| == Utf16Units(c)
    ensures forall i :: 0 <= i < |r| ==> JsAllowed(r[i])
    ensures JsAllowed(c) ==> r == [c]
    ensures !JsAllowed(c) ==> forall i :: 0 <= i < |r| ==> r[i] == '_'
  {
    if JsAllowed(c) then [c] else if c as int > 0xFFFF then "__" else "_"
  }

  /** `filename.replace(/[^a-z0-9._-]/gi, '_')`: one allowed character per
      code unit of the input. */
  function ReplaceDisallowed(s: string): (r: string)
    ensures |r| == Utf16Length(s)
    ensures forall i :: 0 <= i < |r| ==> JsAllowed(r[i])
  {
    if s == [] then [] else ReplaceChar(s[0]) + ReplaceDisallowed(s[1..])
  }

  lemma {:induction false} Utf16LengthConcat(a: string, b: string)
    ensures Utf16Length(a + b) == Utf16Length(a) + Utf16Length(b)
  {
    if a != [] {
      assert (a + b)[0] == a[0] && (a + b)[1..] == a[1..] + b;
      Utf16LengthConcat(a[1..], b);
    } else {
      assert a + b == b;
    }
  }

  lemma {:induction false} ReplaceConcat(a: string, b: string)
    ensures ReplaceDisallowed(a + b) == ReplaceDisallowed(a) + ReplaceDisallowed(b)
  {
    if a != [] {
      assert (a + b)[0] == a[0] && (a + b)[1..] == a[1..] + b;
      ReplaceConcat(a[1..], b);
    } else {
      assert a + b == b;
    }
  }

  /** Character `i` of the input becomes the code units that start at the
      UTF-16 offset of that character, and nothing else does. */
  lemma ReplaceAt(s: string, i: nat)
    requires i < |s|
    ensures var off := Utf16Length(s[..i]);
            off + Utf16Units(s[i]) <= |ReplaceDisallowed(s)| &&
            ReplaceDisallowed(s)[off..off + Utf16Units(s[i])] == ReplaceChar(s[i])
  {
    var a, c, b := s[..i], [s[i]], s[i + 1..];
    assert s == a + c + b;
    ReplaceConcat(a + c, b);
    ReplaceConcat(a, c);
    assert c[1..] == [];
    assert ReplaceDisallowed(c) == ReplaceChar(s[i]);
  }

  /** A text of allowed characters is left as it is by the replacement. */
  lemma {:induction false} ReplaceAllowed(s: string)
    requires forall i :: 0 <= i < |s| ==> JsAllowed(s[i])
    ensures ReplaceDisallowed(s) == s
  {
    if s != [] {
      ReplaceAllowed(s[1..]);
      assert [s[0]] + s[1..] == s;
    }
  }

  /** Within the Basic Multilingual Plane the replacement works character
      by character. */
  lemma ReplaceBmp(s: string)
    requires forall i :: 0 <= i < |s| ==> s[i] as int <= 0xFFFF
    ensures |ReplaceDisallowed(s)| == |s|
    ensures forall i :: 0 <= i < |s| ==> ReplaceDisallowed(s)[i] == if JsAllowed(s[i]) then s[i] else '_'
  {
    forall i | 0 <= i < |s|
      ensures ReplaceDisallowed(s)[i] == if JsAllowed(s[i]) then s[i] else '_'
    {
      ReplaceAt(s, i);
      assert Utf16Length(s[..i]) == i;
    }
  }

  /** Allowed characters are ASCII, so each is one code unit. */
  lemma AllowedSingleUnits(s: string)
    requires forall i :: 0 <= i < |s| ==> JsAllowed(s[i])
    ensures Utf16Length(s) == |s|
  {
    assert forall i :: 0 <= i < |s| ==> s[i] as int <= 0xFFFF;
  }

  /** `sanitizeFilename(filename)`: the replacement, then `.substring(0, 100)`,
      which counts code units; every character of the replacement is one
      code unit, so the cut keeps the first min(length, 100) of them. */
  function ClientSanitize(s: string): (r: string)
    ensures |r| == if Utf16Length(s) < MaxClientName then Utf16Length(s) else MaxClientName
    ensures r == ReplaceDisallowed(s)[..|r|]
    ensures forall i :: 0 <= i < |r| ==> JsAllowed(r[i])
    ensures Utf16Length(r) == |r|
  {
    var replaced := ReplaceDisallowed(s);
    var r := if |replaced| <= MaxClientName then replaced else replaced[..MaxClientName];
    AllowedSingleUnits(r);
    r
  }

  /** For a title within the Basic Multilingual Plane, allowed characters keep
      their place and each other character becomes one '_'. */
  lemma ClientSanitizeBmp(s: string)
    requires forall i :: 0 <= i < |s| ==> s[i] as int <= 0xFFFF
    ensures |ClientSanitize(s)| == if |s| < MaxClientName then |s| else MaxClientName
    ensures forall i :: 0 <= i < |ClientSanitize(s)| ==>
              ClientSanitize(s)[i] == if JsAllowed(s[i]) then s[i] else '_'
  {
    ReplaceBmp(s);
  }

  /** A character above U+FFFF, such as an emoji, becomes two underscores. */
  lemma ClientSanitizeAstral()
    ensures ClientSanitize("\U{1F600}") == "__"
    ensures ClientSanitize("a\U{1F600}b") == "a__b"
  {
    var e := "\U{1F600}";
    assert e[1..] == [];
    assert ReplaceDisallowed(e) == "__";
    var t := "a\U{1F600}b";
    assert t == "a" + e + "b";
    ReplaceConcat("a" + e, "b");
    ReplaceConcat("a", e);
    ReplaceAllowed("a");
    ReplaceAllowed("b");
  }

  /** Sanitizing twice gives the same as sanitizing once. */
  lemma ClientSanitizeIdempotent(s: string)
    ensures ClientSanitize(ClientSanitize(s)) == ClientSanitize(s)
  {
    var r := ClientSanitize(s);
    ReplaceAllowed(r);
  }

  /** A name is left as it is exactly when it is at most 100 allowed characters. */
  lemma ClientSanitizeFixedPoint(s: string)
    ensures ClientSanitize(s) == s <==> |s| <= MaxClientName && forall i :: 0 <= i < |s| ==> JsAllowed(s[i])
  {
    if |s| <= MaxClientName && forall i :: 0 <= i < |s| ==> JsAllowed(s[i]) {
      ReplaceAllowed(s);
      AllowedSingleUnits(s);
    }
  }
}
