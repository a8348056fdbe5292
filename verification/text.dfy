/** The .NET string operations the request path and the query parameters
    go through: `ToLower`, `Trim`, ordinal `Replace`, and `Int32.TryParse`. */
module Text {
  import opened Common

  // ---------------------------------------------------------------------
  // Case mapping

  /** `Char.ToLower` restricted to ASCII letters. */
  function LowerChar(c: char): char {
    if 'A' <= c <= 'Z' then (c as int + 32) as char else c
  }

  function Lower(s: string): (r: string)
    ensures |r| == |s|
    ensures NoUpper(r)
    ensures NoUpper(s) ==> r == s
  {
    seq(|s|, i requires 0 <= i < |s| => LowerChar(s[i]))
  }

  /** No ASCII upper-case letter in `s`. */
  predicate NoUpper(s: string) {
    forall i :: 0 <= i < |s| ==> !('A' <= s[i] <= 'Z')
  }

  /** Lower-casing keeps the length, distributes over concatenation and is idempotent. */
  lemma LowerShape(a: string, b: string)
    ensures |Lower(a)| == |a|
    ensures Lower(a + b) == Lower(a) + Lower(b)
    ensures Lower(Lower(a)) == Lower(a)
  {
    assert Lower(a + b) == Lower(a) + Lower(b) by {
      assert forall i :: 0 <= i < |a| + |b| ==> Lower(a + b)[i] == (Lower(a) + Lower(b))[i];
    }
  }

  // ---------------------------------------------------------------------
  // Trimming

  /** `Char.IsWhiteSpace`: the Unicode space separators plus the line and
      paragraph separators and the control characters U+0009..U+000D and U+0085. */
  predicate IsWhiteSpace(c: char) {
    || '\U{9}' <= c <= '\U{D}'
    || c == ' ' || c == '\U{85}' || c == '\U{A0}' || c == '\U{1680}'
    || '\U{2000}' <= c <= '\U{200A}'
    || c == '\U{2028}' || c == '\U{2029}' || c == '\U{202F}' || c == '\U{205F}' || c == '\U{3000}'
  }

  /** Number of leading characters of `s` that satisfy `drop`. */
  function Leading(s: string, drop: char -> bool): (n: nat)
    ensures n <= |s|
    ensures forall k :: 0 <= k < n ==> drop(s[k])
    ensures n < |s| ==> !drop(s[n])
    decreases |s|
  {
    if |s| > 0 && drop(s[0]) then 1 + Leading(s[1..], drop) else 0
  }

  /** Number of trailing characters of `s` that satisfy `drop`. */
  function Trailing(s: string, drop: char -> bool): (n: nat)
    ensures n <= |s|
    ensures forall k :: |s| - n <= k < |s| ==> drop(s[k])
    ensures n < |s| ==> !drop(s[|s| - n - 1])
    decreases |s|
  {
    if |s| > 0 && drop(s[|s| - 1]) then 1 + Trailing(s[..|s| - 1], drop) else 0
  }

  /** `String.Trim` / `String.Trim(chars)`: both ends stripped of `drop` characters.
      The result is the piece of `s` that starts after the droppable prefix,
      ends before a droppable suffix, and neither starts nor ends with a
      droppable character. */
  function Trim(s: string, drop: char -> bool): (r: string)
    ensures |r| <= |s| - Leading(s, drop)
    ensures r == s[Leading(s, drop)..Leading(s, drop) + |r|]
    ensures forall k :: Leading(s, drop) + |r| <= k < |s| ==> drop(s[k])
    ensures |r| > 0 ==> !drop(r[0]) && !drop(r[|r| - 1])
  {
    var t := s[Leading(s, drop)..];
    t[..|t| - Trailing(t, drop)]
  }

  lemma TrimKeepsUntrimmed(s: string, drop: char -> bool)
    requires |s| > 0 && !drop(s[0]) && !drop(s[|s| - 1])
    ensures Trim(s, drop) == s
  {
    var r := Trim(s, drop);
    assert Leading(s, drop) == 0;
  }

  /** Text made only of droppable characters trims to nothing. */
  lemma TrimAllDroppable(s: string, drop: char -> bool)
    requires forall k :: 0 <= k < |s| ==> drop(s[k])
    ensures Trim(s, drop) == ""
  {
    assert Leading(s, drop) == |s|;
  }

  /** One droppable character in front of untrimmed text is all that goes. */
  lemma TrimDropsFirst(c: char, s: string, drop: char -> bool)
    requires drop(c) && |s| > 0 && !drop(s[0]) && !drop(s[|s| - 1])
    ensures Trim([c] + s, drop) == s
  {
    var cs := [c] + s;
    assert cs[1..] == s;
    assert Leading(cs, drop) == 1;
    assert Trailing(s, drop) == 0;
  }

  // ---------------------------------------------------------------------
  // Ordinal replacement

  /** `String.Replace(pat, rep)`: every non-overlapping occurrence of `pat`,
      found left to right, is replaced; the replacement text is not rescanned. */
  function ReplaceAll(s: string, pat: string, rep: string): (r: string)
    requires |pat| > 0
    ensures |rep| <= |pat| ==> |r| <= |s|
    ensures rep == pat ==> r == s
    decreases |s|
  {
    if |s| < |pat| then s
    else if s[..|pat|] == pat then rep + ReplaceAll(s[|pat|..], pat, rep)
    else [s[0]] + ReplaceAll(s[1..], pat, rep)
  }

  /** A pattern that starts with `c` cannot occur in a string without `c`,
      so replacing it leaves such a string untouched. */
  lemma {:induction false} ReplaceAbsent(s: string, pat: string, rep: string)
    requires |pat| > 0 && pat[0] !in s
    ensures ReplaceAll(s, pat, rep) == s
    decreases |s|
  {
    if |s| >= |pat| {
      assert s[..|pat|][0] == s[0];
      ReplaceAbsent(s[1..], pat, rep);
      assert [s[0]] + s[1..] == s;
    }
  }

  /** An occurrence at the front is replaced and the scan resumes after it. */
  lemma ReplaceLeading(pat: string, rest: string, rep: string)
    requires |pat| > 0
    ensures ReplaceAll(pat + rest, pat, rep) == rep + ReplaceAll(rest, pat, rep)
  {
    assert (pat + rest)[..|pat|] == pat;
    assert (pat + rest)[|pat|..] == rest;
  }

  /** `pat` occurs in `s` starting at index `i`. */
  predicate OccursAt(s: string, pat: string, i: nat) {
    i + |pat| <= |s| && s[i..i + |pat|] == pat
  }

  /** The parts with `sep` between each two. */
  function Join(parts: seq<string>, sep: string): string
    requires |parts| > 0
    decreases |parts|
  {
    if |parts| == 1 then parts[0] else parts[0] + sep + Join(parts[1..], sep)
  }

  /** Joining the parts with `pat` puts each occurrence of `pat` at a seam,
      found leftmost first: in the text from any part on, no occurrence of
      `pat` starts inside that part. */
  predicate LeftmostSplit(parts: seq<string>, pat: string)
    requires |parts| > 0
  {
    forall j, i :: 0 <= j < |parts| && 0 <= i < |parts[j]| ==> !OccursAt(Join(parts[j..], pat), pat, i)
  }

  /** Text in which no occurrence starts before the end of `a` is copied up to there. */
  lemma {:induction false} SkipsPrefix(a: string, x: string, pat: string, rep: string)
    requires |pat| > 0
    requires forall i :: 0 <= i < |a| ==> !OccursAt(a + x, pat, i)
    ensures ReplaceAll(a + x, pat, rep) == a + ReplaceAll(x, pat, rep)
    decreases |a|
  {
    if |a| == 0 {
      assert a + x == x;
    } else {
      var s := a + x;
      if |s| >= |pat| {
        assert !OccursAt(s, pat, 0);
        var a' := a[1..];
        assert s[1..] == a' + x;
        forall i | 0 <= i < |a'|
          ensures !OccursAt(a' + x, pat, i)
        {
          assert !OccursAt(s, pat, i + 1);
          OccursShift(s, pat, i);
        }
        SkipsPrefix(a', x, pat, rep);
        assert a == [s[0]] + a';
      }
    }
  }

  /** `Replace` on text split at the leftmost occurrences of `pat` joins the
      same parts with the replacement instead. */
  lemma {:induction false} ReplaceJoin(parts: seq<string>, pat: string, rep: string)
    requires |pat| > 0 && |parts| > 0 && LeftmostSplit(parts, pat)
    ensures ReplaceAll(Join(parts, pat), pat, rep) == Join(parts, rep)
    decreases |parts|
  {
    var p0 := parts[0];
    assert parts[0..] == parts;
    if |parts| == 1 {
      assert p0 + "" == p0 == Join(parts[0..], pat);
      forall i | 0 <= i < |p0|
        ensures !OccursAt(p0 + "", pat, i)
      {
        assert !OccursAt(Join(parts[0..], pat), pat, i);
      }
      SkipsPrefix(p0, "", pat, rep);
    } else {
      var tail := parts[1..];
      var rest := Join(tail, pat);
      assert Join(parts, pat) == p0 + (pat + rest);
      SkipsPrefix(p0, pat + rest, pat, rep);
      ReplaceLeading(pat, rest, rep);
      forall j, i | 0 <= j < |tail| && 0 <= i < |tail[j]|
        ensures !OccursAt(Join(tail[j..], pat), pat, i)
      {
        assert tail[j..] == parts[j + 1..];
      }
      ReplaceJoin(tail, pat, rep);
    }
  }

  /** The parts of `s` between the leftmost non-overlapping occurrences of `pat`. */
  function SplitOn(s: string, pat: string): (parts: seq<string>)
    requires |pat| > 0
    ensures |parts| > 0
    decreases |s|
  {
    if |s| < |pat| then [s]
    else if s[..|pat|] == pat then [""] + SplitOn(s[|pat|..], pat)
    else
      var rest := SplitOn(s[1..], pat);
      [[s[0]] + rest[0]] + rest[1..]
  }

  /** The split joins back to the text. */
  lemma {:induction false} SplitOnJoins(s: string, pat: string)
    requires |pat| > 0
    ensures Join(SplitOn(s, pat), pat) == s
    decreases |s|
  {
    var parts := SplitOn(s, pat);
    if |s| >= |pat| {
      if s[..|pat|] == pat {
        SplitOnJoins(s[|pat|..], pat);
        assert parts[1..] == SplitOn(s[|pat|..], pat);
        assert s == pat + s[|pat|..];
      } else {
        SplitOnJoins(s[1..], pat);
        JoinConsFirst(s[0], SplitOn(s[1..], pat), pat);
        assert s == [s[0]] + s[1..];
      }
    }
  }

  /** Putting a character in front of the first part puts it in front of the join. */
  lemma JoinConsFirst(c: char, parts: seq<string>, sep: string)
    requires |parts| > 0
    ensures Join([[c] + parts[0]] + parts[1..], sep) == [c] + Join(parts, sep)
  {
    var moved := [[c] + parts[0]] + parts[1..];
    assert moved[1..] == parts[1..];
  }

  /** The split is a leftmost split. */
  lemma {:induction false} SplitOnLeftmost(s: string, pat: string)
    requires |pat| > 0
    ensures LeftmostSplit(SplitOn(s, pat), pat)
    decreases |s|
  {
    var parts := SplitOn(s, pat);
    if |s| < |pat| {
      assert parts[0..] == parts;
    } else if s[..|pat|] == pat {
      var tail := SplitOn(s[|pat|..], pat);
      SplitOnLeftmost(s[|pat|..], pat);
      assert parts[1..] == tail;
      forall j, i | 0 <= j < |parts| && 0 <= i < |parts[j]|
        ensures !OccursAt(Join(parts[j..], pat), pat, i)
      {
        assert parts[j..] == tail[j - 1..];
      }
    } else {
      var rest := SplitOn(s[1..], pat);
      SplitOnLeftmost(s[1..], pat);
      SplitOnJoins(s, pat);
      SplitOnJoins(s[1..], pat);
      assert parts[1..] == rest[1..];
      forall j, i | 0 <= j < |parts| && 0 <= i < |parts[j]|
        ensures !OccursAt(Join(parts[j..], pat), pat, i)
      {
        if j == 0 {
          assert parts[0..] == parts && rest[0..] == rest;
          if i > 0 {
            assert !OccursAt(Join(rest[0..], pat), pat, i - 1);
          }
          NoOccurrenceAfterFirst(s, pat, i);
        } else {
          assert parts[j..] == rest[j..];
        }
      }
    }
  }

  /** An occurrence in `s` past its first character is one in `s[1..]`, one place earlier. */
  lemma OccursShift(s: string, pat: string, i: nat)
    requires |s| > 0
    ensures OccursAt(s[1..], pat, i) <==> OccursAt(s, pat, i + 1)
  {
    if i + 1 + |pat| <= |s| {
      var here := s[i + 1..i + 1 + |pat|];
      var there := s[1..][i..i + |pat|];
      assert forall k :: 0 <= k < |pat| ==> here[k] == there[k];
      assert here == there;
    }
  }

  /** Where the text does not start with `pat`, an occurrence is one in its tail. */
  lemma NoOccurrenceAfterFirst(s: string, pat: string, i: nat)
    requires |s| >= |pat| > 0 && s[..|pat|] != pat
    requires i > 0 ==> !OccursAt(s[1..], pat, i - 1)
    ensures !OccursAt(s, pat, i)
  {
    if i == 0 {
      assert s[0..|pat|] == s[..|pat|];
    } else {
      OccursShift(s, pat, i - 1);
    }
  }

  /** `Replace` joins the parts between the leftmost occurrences of `pat` with `rep`. */
  lemma ReplaceAllSplits(s: string, pat: string, rep: string)
    requires |pat| > 0
    ensures ReplaceAll(s, pat, rep) == Join(SplitOn(s, pat), rep)
  {
    SplitOnJoins(s, pat);
    SplitOnLeftmost(s, pat);
    ReplaceJoin(SplitOn(s, pat), pat, rep);
  }

  // ---------------------------------------------------------------------
  // Int32.TryParse with NumberStyles.Integer

  /** White space that `NumberStyles.AllowLeadingWhite`/`AllowTrailingWhite` skip. */
  predicate IsNumberWhite(c: char) {
    '\U{9}' <= c <= '\U{D}' || c == ' '
  }

  predicate IsDigit(c: char) {
    '0' <= c <= '9'
  }

  /** Every character of `s` satisfies `p`. */
  predicate AllOf(s: string, p: char -> bool) {
    forall k :: 0 <= k < |s| ==> p(s[k])
  }

  /** Value of a string of decimal digits, most significant first. */
  function DigitsValue(s: string): (v: nat)
    requires AllOf(s, IsDigit)
    decreases |s|
  {
    if |s| == 0 then 0
    else DigitsValue(s[..|s| - 1]) * 10 + (s[|s| - 1] as int - '0' as int)
  }

  /** `Int32.TryParse(s, out v)`: optional surrounding white space, an optional
      sign, one or more ASCII digits, and a value that fits in 32 bits; on any
      other input the parse fails (and the caller's out variable becomes 0). */
  function ParseInt32(s: string): (r: Option<int>)
    ensures r.Some? ==> IsInt32(r.value)
  {
    ParseSigned(Trim(s, IsNumberWhite))
  }

  /** The part of `ParseInt32` after the white space is trimmed. */
  function ParseSigned(t: string): (r: Option<int>)
    ensures r.Some? ==> IsInt32(r.value)
  {
    if |t| == 0 then None
    else
      var signed := t[0] == '-' || t[0] == '+';
      var digits := if signed then t[1..] else t;
      if |digits| == 0 || !AllOf(digits, IsDigit) then None
      else
        var magnitude: int := DigitsValue(digits);
        var v := if t[0] == '-' then -magnitude else magnitude;
        if IsInt32(v) then Some(v) else None
  }

  /** The text `Int32.TryParse` accepts, in pieces: leading white space, an
      optional sign, one or more digits, trailing white space. */
  predicate IntegerText(lead: string, sign: string, digits: string, trail: string) {
    && AllOf(lead, IsNumberWhite)
    && (sign == "" || sign == "-" || sign == "+")
    && |digits| > 0 && AllOf(digits, IsDigit)
    && AllOf(trail, IsNumberWhite)
  }

  /** The value a sign and a digit string denote. */
  function SignedValue(sign: string, digits: string): int
    requires AllOf(digits, IsDigit)
  {
    var magnitude: int := DigitsValue(digits);
    if sign == "-" then -magnitude else magnitude
  }

  /** Trimming removes exactly the droppable padding around a piece that
      neither starts nor ends with a droppable character. */
  lemma TrimPadded(lead: string, m: string, trail: string, drop: char -> bool)
    requires AllOf(lead, drop) && AllOf(trail, drop)
    requires |m| > 0 && !drop(m[0]) && !drop(m[|m| - 1])
    ensures Trim(lead + m + trail, drop) == m
  {
    var s := lead + m + trail;
    assert forall k :: 0 <= k < |lead| ==> s[k] == lead[k];
    assert s[|lead|] == m[0];
    assert Leading(s, drop) == |lead|;
    var r := Trim(s, drop);
    assert forall k :: |lead| + |m| <= k < |s| ==> s[k] == trail[k - |lead| - |m|];
    assert s[|lead| + |m| - 1] == m[|m| - 1];
    assert |r| == |m|;
    assert s[|lead|..|lead| + |m|] == m;
  }

  /** A sign and digits, trimmed, parse to their signed value when it fits
      in 32 bits. */
  lemma ParseSignedDigits(sign: string, digits: string)
    requires sign == "" || sign == "-" || sign == "+"
    requires |digits| > 0 && AllOf(digits, IsDigit)
    ensures ParseSigned(sign + digits) == if IsInt32(SignedValue(sign, digits)) then Some(SignedValue(sign, digits)) else None
  {
    var t := sign + digits;
    if sign == "" {
      assert t == digits;
      assert IsDigit(t[0]);
    } else {
      assert t[0] == sign[0];
      assert t[1..] == digits;
    }
  }

  /** Every text of the accepted shape parses to its signed value when that
      value fits in 32 bits, and fails otherwise. */
  lemma ParseIntegerText(lead: string, sign: string, digits: string, trail: string)
    requires IntegerText(lead, sign, digits, trail)
    ensures ParseInt32(lead + sign + digits + trail) ==
      if IsInt32(SignedValue(sign, digits)) then Some(SignedValue(sign, digits)) else None
  {
    var m := sign + digits;
    assert lead + sign + digits + trail == lead + m + trail;
    assert m[|m| - 1] == digits[|digits| - 1];
    assert m[0] == if sign == "" then digits[0] else sign[0];
    TrimPadded(lead, m, trail, IsNumberWhite);
    ParseSignedDigits(sign, digits);
  }

  /** The sign `ParseSigned` reads: the first character when it is '-' or '+'. */
  function SignOf(t: string): string {
    if |t| > 0 && (t[0] == '-' || t[0] == '+') then t[..1] else ""
  }

  /** A trimmed text that parses is a sign followed by digits, and the result
      is their signed value. */
  lemma ParsedSigned(t: string)
    requires ParseSigned(t).Some?
    ensures var sign := SignOf(t); var digits := t[|sign|..];
      && t == sign + digits && (sign == "" || sign == "-" || sign == "+")
      && |digits| > 0 && AllOf(digits, IsDigit) && ParseSigned(t) == Some(SignedValue(sign, digits))
  {
  }

  /** Text is its trimmed piece with the droppable padding on each side. */
  lemma TrimSplits(s: string, drop: char -> bool) returns (lead: string, trail: string)
    ensures s == lead + Trim(s, drop) + trail
    ensures AllOf(lead, drop) && AllOf(trail, drop)
  {
    var n := Leading(s, drop);
    var t := Trim(s, drop);
    var e := n + |t|;
    lead, trail := s[..n], s[e..];
    assert AllOf(lead, drop) by {
      AllOfSlice(s, 0, n, drop);
      assert s[0..n] == lead;
    }
    assert AllOf(trail, drop) by {
      AllOfSlice(s, e, |s|, drop);
      assert s[e..|s|] == trail;
    }
    SplitThree(s, n, e);
  }

  lemma SplitThree(s: string, i: nat, j: nat)
    requires i <= j <= |s|
    ensures s == s[..i] + s[i..j] + s[j..]
  {
    assert s[..i] + s[i..j] == s[..j];
  }

  lemma AllOfSlice(s: string, lo: nat, hi: nat, p: char -> bool)
    requires lo <= hi <= |s|
    requires forall k :: lo <= k < hi ==> p(s[k])
    ensures AllOf(s[lo..hi], p)
  {
    var piece := s[lo..hi];
    assert forall k :: 0 <= k < |piece| ==> piece[k] == s[lo + k];
  }

  /** Conversely, a successful parse means the text has the accepted shape,
      split as returned, and the result is its signed value. */
  lemma ParsedIsIntegerText(s: string) returns (lead: string, sign: string, digits: string, trail: string)
    requires ParseInt32(s).Some?
    ensures IntegerText(lead, sign, digits, trail)
    ensures s == lead + sign + digits + trail
    ensures ParseInt32(s) == Some(SignedValue(sign, digits))
  {
    var t := Trim(s, IsNumberWhite);
    lead, trail := TrimSplits(s, IsNumberWhite);
    ParsedSigned(t);
    sign := SignOf(t);
    digits := t[|sign|..];
    assert s == lead + t + trail;
    Regroup(lead, sign, digits, trail);
  }

  /** Concatenation regrouped, kept apart from the parsing facts it would
      otherwise be proved among. */
  lemma Regroup(a: string, b: string, c: string, d: string)
    ensures a + (b + c) + d == a + b + c + d
  {
  }

  /** The digit character for 0 <= d < 10. */
  function DigitChar(d: nat): char
    requires d < 10
  {
    ('0' as int + d) as char
  }

  /** Decimal rendering of a natural number, without leading zeros. */
  function ShowNat(n: nat): (s: string)
    ensures |s| > 0 && AllOf(s, IsDigit)
  {
    if n < 10 then [DigitChar(n)] else ShowNat(n / 10) + [DigitChar(n % 10)]
  }

  /** Decimal rendering of an integer as `Int32.ToString` writes it. */
  function ShowInt(n: int): string {
    if n < 0 then "-" + ShowNat(-n) else ShowNat(n)
  }

  lemma {:induction false} DigitsOfShowNat(n: nat)
    ensures DigitsValue(ShowNat(n)) == n
  {
    if n >= 10 {
      var s := ShowNat(n);
      assert s[..|s| - 1] == ShowNat(n / 10);
      DigitsOfShowNat(n / 10);
    }
  }

  /** Round trip: an integer written in decimal parses back to itself exactly
      when it fits in 32 bits; otherwise the parse fails with an overflow. */
  lemma ParseShowInt(n: int)
    ensures ParseInt32(ShowInt(n)) == (if IsInt32(n) then Some(n) else None)
  {
    var s := ShowInt(n);
    var m: nat := if n < 0 then -n else n;
    DigitsOfShowNat(m);
    assert !IsNumberWhite(s[0]) && !IsNumberWhite(s[|s| - 1]);
    TrimKeepsUntrimmed(s, IsNumberWhite);
    if n < 0 {
      assert s[1..] == ShowNat(m);
    } else {
      assert s[0] != '-' && s[0] != '+';
    }
  }
}
