/**
 * Character and string helpers shared by the client and the server models:
 * whitespace trimming, lower-casing, substring search, splitting on a
 * separator and decimal numerals.
 */
module Text {
  import opened Seqs

  /** Space and U+0009 to U+000D (tab, line feed, vertical tab, form feed,
      carriage return): the whitespace that `String.prototype.trim`,
      Python's `str.strip` and the `\s` class all remove. Python also counts
      the separators U+001C to U+001F, which JavaScript does not, and both
      count further characters outside ASCII. */
  predicate IsSpace(c: char) {
    c == ' ' || '\t' <= c <= '\r'
  }

  predicate AllSpace(s: string) {
    forall i :: 0 <= i < |s| ==> IsSpace(s[i])
  }

  /** The number of whitespace characters `s` starts with. */
  function LeadingSpaces(s: string): (n: nat)
    ensures n <= |s|
    ensures forall i :: 0 <= i < n ==> IsSpace(s[i])
    ensures n < |s| ==> !IsSpace(s[n])
  {
    if |s| > 0 && IsSpace(s[0]) then
      var n := LeadingSpaces(s[1..]);
      assert forall i :: 1 <= i < n + 1 ==> s[i] == s[1..][i - 1];
      n + 1
    else 0
  }

  /** The number of whitespace characters `s` ends with. */
  function TrailingSpaces(s: string): (n: nat)
    ensures n <= |s|
    ensures forall i :: |s| - n <= i < |s| ==> IsSpace(s[i])
    ensures n < |s| ==> !IsSpace(s[|s| - 1 - n])
  {
    if |s| > 0 && IsSpace(s[|s| - 1]) then
      var n := TrailingSpaces(s[..|s| - 1]);
      assert forall i :: |s| - 1 - n <= i < |s| - 1 ==> s[i] == s[..|s| - 1][i];
      n + 1
    else 0
  }

  /** `s` is `lead + r + trail` with `lead` and `trail` all whitespace. */
  ghost predicate TrimmedFrom(s: string, r: string, lead: nat) {
    lead + |r| <= |s| && s[lead..lead + |r|] == r && AllSpace(s[..lead]) && AllSpace(s[lead + |r|..])
  }

  /** `trim()` in JavaScript, `strip()` in Python, on the ASCII whitespace:
      the result neither starts nor ends with whitespace. */
  function Trim(s: string): (r: string)
    ensures |r| <= |s|
    ensures r == [] || (!IsSpace(r[0]) && !IsSpace(r[|r| - 1]))
  {
    var lead := LeadingSpaces(s);
    if lead == |s| then []
    else
      var trail := TrailingSpaces(s);
      assert lead < |s| - trail;
      s[lead..|s| - trail]
  }

  /** Trimming removes whitespace at both ends and nothing else. */
  lemma TrimRemovesOnlySpace(s: string)
    ensures TrimmedFrom(s, Trim(s), LeadingSpaces(s))
  {
    var lead, r := LeadingSpaces(s), Trim(s);
    var front := s[..lead];
    assert AllSpace(front) by {
      forall i | 0 <= i < lead ensures IsSpace(front[i]) {
        assert front[i] == s[i];
      }
    }
    if lead < |s| {
      var trail := TrailingSpaces(s);
      assert lead < |s| - trail && r == s[lead..|s| - trail];
      var rest := s[lead + |r|..];
      assert AllSpace(rest) by {
        forall j | 0 <= j < |rest| ensures IsSpace(rest[j]) {
          assert rest[j] == s[|s| - trail + j];
        }
      }
    }
  }

  /** Trimming a string without whitespace at either end leaves it as it is. */
  lemma TrimUntouched(s: string)
    requires s == [] || (!IsSpace(s[0]) && !IsSpace(s[|s| - 1]))
    ensures Trim(s) == s
  {
  }

  /** A string of whitespace only trims to the empty string. */
  lemma TrimBlank(s: string)
    requires AllSpace(s)
    ensures Trim(s) == []
  {
  }

  /** `s.length` in JavaScript: the number of UTF-16 code units, so a
      character above U+FFFF (a surrogate pair) counts twice. */
  function JsLength(s: string): (n: nat)
    ensures |s| <= n <= 2 * |s|
  {
    if s == [] then 0 else (if s[0] as int >= 0x1_0000 then 2 else 1) + JsLength(s[1..])
  }

  /** A character outside the Basic Multilingual Plane, which UTF-16
      writes as a surrogate pair. */
  predicate IsAstral(c: char) {
    c as int >= 0x1_0000
  }

  /** One character is one code unit, or two for an astral one. */
  lemma JsLengthOfChar(c: char)
    ensures JsLength([c]) == if IsAstral(c) then 2 else 1
    ensures JsLength("\U{1F600}") == 2 && JsLength("a") == 1
  {
    assert [c][1..] == [];
    assert "\U{1F600}"[1..] == [] && "a"[1..] == [];
  }

  /** The length of a concatenation is the sum of the lengths. */
  lemma {:induction false} JsLengthAppend(a: string, b: string)
    ensures JsLength(a + b) == JsLength(a) + JsLength(b)
  {
    if a == [] {
      assert a + b == b;
    } else {
      assert (a + b)[0] == a[0] && (a + b)[1..] == a[1..] + b;
      JsLengthAppend(a[1..], b);
    }
  }

  /** The JavaScript length is the number of characters plus the number of
      astral characters. */
  lemma {:induction false} JsLengthCounts(s: string)
    ensures JsLength(s) == |s| + |set i | 0 <= i < |s| && s[i] as int >= 0x1_0000|
    decreases |s|
  {
    if s != [] {
      var front, last := s[..|s| - 1], s[|s| - 1];
      assert s == front + [last];
      JsLengthCounts(front);
      JsLengthAppend(front, [last]);
      JsLengthOfChar(last);
      PositionsSnoc(s, IsAstral);
      assert Positions(s, IsAstral) == set i | 0 <= i < |s| && s[i] as int >= 0x1_0000;
      assert Positions(front, IsAstral) == set i | 0 <= i < |front| && front[i] as int >= 0x1_0000;
    }
  }

  /** For characters of the Basic Multilingual Plane the JavaScript length
      is the number of characters. */
  lemma {:induction false} JsLengthOfBmp(s: string)
    requires forall i :: 0 <= i < |s| ==> s[i] as int < 0x1_0000
    ensures JsLength(s) == |s|
  {
    if s != [] {
      assert forall i :: 0 <= i < |s| - 1 ==> s[1..][i] == s[i + 1];
      JsLengthOfBmp(s[1..]);
    }
  }

  /** Lower-cases ASCII letters and the Latin-1 capitals U+00C0..U+00DE
      (except the multiplication sign U+00D7), as `toLowerCase` does for
      these characters. How `ilike` folds case depends on the database
      (SQLite's `lower` and `LIKE` fold ASCII letters only). */
  function LowerChar(c: char): char {
    if 'A' <= c <= 'Z' || ('\U{C0}' <= c <= '\U{DE}' && c != '\U{D7}') then
      (c as int + 32) as char
    else
      c
  }

  function Lower(s: string): (r: string)
    ensures |r| == |s|
    ensures forall i :: 0 <= i < |s| ==> r[i] == LowerChar(s[i])
  {
    seq(|s|, i requires 0 <= i < |s| => LowerChar(s[i]))
  }

  /** `q` occurs in `s` starting at index `i`. */
  predicate OccursAt(q: string, s: string, i: int) {
    0 <= i && i + |q| <= |s| && s[i..i + |q|] == q
  }

  /** `s.includes(q)` in JavaScript, `q in s` in Python. */
  predicate IsSubstring(q: string, s: string) {
    exists i :: 0 <= i <= |s| - |q| && OccursAt(q, s, i)
  }

  /** `s.split(sep)` with a one-character separator, as JavaScript and Python
      both define it: `"a//b"` gives `["a", "", "b"]` and `""` gives `[""]`. */
  function Split(s: string, sep: char): (parts: seq<string>)
    ensures |parts| >= 1
    ensures forall k :: 0 <= k < |parts| ==> sep !in parts[k]
    ensures sep !in s ==> parts == [s]
  {
    if s == [] then [[]]
    else
      var rest := Split(s[1..], sep);
      if s[0] == sep then [[]] + rest
      else
        assert sep !in s ==> [s[0]] + s[1..] == s;
        [[s[0]] + rest[0]] + rest[1..]
  }

  /** The inverse of `Split`: puts `sep` back between the parts. */
  function Join(parts: seq<string>, sep: char): string
    requires |parts| >= 1
  {
    if |parts| == 1 then parts[0] else parts[0] + [sep] + Join(parts[1..], sep)
  }

  lemma {:induction false} JoinSplit(s: string, sep: char)
    ensures Join(Split(s, sep), sep) == s
  {
    if s != [] {
      var rest := Split(s[1..], sep);
      JoinSplit(s[1..], sep);
      if s[0] == sep {
        assert Split(s, sep)[1..] == rest;
      } else {
        var parts := Split(s, sep);
        if |rest| == 1 {
          assert parts == [[s[0]] + rest[0]];
        } else {
          assert parts[1..] == rest[1..];
          assert Join(rest, sep) == rest[0] + [sep] + Join(rest[1..], sep);
        }
      }
    }
  }

  /** Splitting `a + [sep] + b`, where `a` has no separator, gives `a` and then
      the parts of `b`. */
  lemma {:induction false} SplitAt(a: string, sep: char, b: string)
    requires sep !in a
    ensures Split(a + [sep] + b, sep) == [a] + Split(b, sep)
  {
    if a == [] {
      assert ([sep] + b)[1..] == b;
    } else {
      SplitAt(a[1..], sep, b);
      assert (a + [sep] + b)[1..] == a[1..] + [sep] + b;
      assert [a[0]] + a[1..] == a;
    }
  }

  predicate IsDigit(c: char) {
    '0' <= c <= '9'
  }

  predicate AllDigits(s: string) {
    forall i :: 0 <= i < |s| ==> IsDigit(s[i])
  }

  function DigitValue(c: char): nat
    requires IsDigit(c)
  {
    c as int - '0' as int
  }

  function DigitChar(d: nat): (c: char)
    requires d < 10
    ensures IsDigit(c) && DigitValue(c) == d
  {
    ('0' as int + d) as char
  }

  /** The value of a decimal numeral (leading zeros allowed). */
  function NumeralValue(s: string): nat
    requires AllDigits(s)
  {
    if s == [] then 0 else 10 * NumeralValue(s[..|s| - 1]) + DigitValue(s[|s| - 1])
  }

  function Pow10(n: nat): (p: nat)
    ensures p >= 1
  {
    if n == 0 then 1 else 10 * Pow10(n - 1)
  }

  /** A numeral of `n` digits stands for less than 10^n. */
  lemma {:induction false} NumeralBound(s: string)
    requires AllDigits(s)
    ensures NumeralValue(s) < Pow10(|s|)
  {
    if s != [] {
      NumeralBound(s[..|s| - 1]);
    }
  }

  /** `n` written with exactly `width` digits, zero-padded on the left. */
  function Numeral(n: nat, width: nat): (s: string)
    requires n < Pow10(width)
    ensures |s| == width && AllDigits(s)
    ensures NumeralValue(s) == n
  {
    if width == 0 then []
    else
      var s := Numeral(n / 10, width - 1) + [DigitChar(n % 10)];
      assert s[..|s| - 1] == Numeral(n / 10, width - 1);
      s
  }

  /** `n` written in decimal without leading zeros, as `String(n)` does. */
  function Show(n: nat): (s: string)
    ensures |s| >= 1 && AllDigits(s)
    ensures NumeralValue(s) == n
    ensures n < 10 ==> |s| == 1
    ensures 10 <= n < 100 ==> |s| == 2
  {
    if n < 10 then [DigitChar(n)]
    else
      var s := Show(n / 10) + [DigitChar(n % 10)];
      assert s[..|s| - 1] == Show(n / 10);
      s
  }

  /** The two characters of a two-digit numeral. */
  lemma NumeralTwoDigits(n: nat)
    requires n < 100
    ensures Numeral(n, 2) == [DigitChar(n / 10), DigitChar(n % 10)]
  {
  }

  /** The characters of `Show(n)` for a one- or two-digit `n`. */
  lemma ShowSmall(n: nat)
    requires n < 100
    ensures Show(n) == if n < 10 then [DigitChar(n)] else [DigitChar(n / 10), DigitChar(n % 10)]
  {
  }
}
