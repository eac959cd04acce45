/**
 * The string operations the sync script relies on, stated over `seq<char>`:
 * `str.strip()`, `str.split(sep)`, `str.upper()`, `str.lower()`,
 * `str.startswith()` and the decimal rendering of integers used by f-strings
 * and `strftime`.
 */
module Text {

  /** The code points for which `str.isspace()` holds, i.e. what `str.strip()` removes. */
  predicate IsSpace(c: char) {
    c == ' ' || ('\t' <= c <= '\r') || ('\U{1C}' <= c <= '\U{1F}')
    || c == '\U{85}' || c == '\U{A0}' || c == '\U{1680}'
    || ('\U{2000}' <= c <= '\U{200A}') || c == '\U{2028}' || c == '\U{2029}'
    || c == '\U{202F}' || c == '\U{205F}' || c == '\U{3000}'
  }

  predicate AllSpace(s: string) {
    forall k | 0 <= k < |s| :: IsSpace(s[k])
  }

  /** `s.lstrip()`: drops white space from the front. */
  function StripStart(s: string): string
    decreases |s|
  {
    if |s| > 0 && IsSpace(s[0]) then StripStart(s[1..]) else s
  }

  /** `s.rstrip()`: drops white space from the back. */
  function StripEnd(s: string): string
    decreases |s|
  {
    if |s| > 0 && IsSpace(s[|s| - 1]) then StripEnd(s[..|s| - 1]) else s
  }

  /** `s.strip()`. */
  function Strip(s: string): string {
    StripEnd(StripStart(s))
  }

  /** `StripStart` keeps the longest suffix that does not start with white space. */
  lemma {:induction false} StripStartSpec(s: string)
    ensures var r := StripStart(s);
      |r| <= |s| && r == s[|s| - |r|..] && AllSpace(s[..|s| - |r|])
      && (r == [] || !IsSpace(r[0]))
    decreases |s|
  {
    if |s| > 0 && IsSpace(s[0]) {
      StripStartSpec(s[1..]);
      var r := StripStart(s);
      assert s[1..][|s| - 1 - |r|..] == s[|s| - |r|..];
      forall k | 0 <= k < |s| - |r| ensures IsSpace(s[k]) {
        if k > 0 {
          assert s[k] == s[1..][..|s| - 1 - |r|][k - 1];
        }
      }
    }
  }

  /** `StripEnd` keeps the longest prefix that does not end with white space. */
  lemma {:induction false} StripEndSpec(s: string)
    ensures var r := StripEnd(s);
      |r| <= |s| && r == s[..|r|] && AllSpace(s[|r|..])
      && (r == [] || !IsSpace(r[|r| - 1]))
    decreases |s|
  {
    if |s| > 0 && IsSpace(s[|s| - 1]) {
      var t := s[..|s| - 1];
      StripEndSpec(t);
      var r := StripEnd(s);
      assert t[..|r|] == s[..|r|];
      forall k | |r| <= k < |s| ensures IsSpace(s[k]) {
        if k < |s| - 1 {
          assert s[k] == t[|r|..][k - |r|];
        }
      }
    }
  }

  /** What `Strip` removes is white space, what it keeps is a contiguous piece of `s`
      that neither starts nor ends with white space. */
  lemma StripSpec(s: string)
    ensures var r := Strip(s);
      exists i, j | 0 <= i <= j <= |s| ::
        r == s[i..j] && AllSpace(s[..i]) && AllSpace(s[j..])
        && (r == [] || (!IsSpace(r[0]) && !IsSpace(r[|r| - 1])))
  {
    var a := StripStart(s);
    StripStartSpec(s);
    var r := StripEnd(a);
    StripEndSpec(a);
    var i := |s| - |a|;
    var j := i + |r|;
    assert a == s[i..];
    assert r == a[..|r|];
    assert r == s[i..j];
    assert AllSpace(s[..i]);
    assert s[j..] == a[|r|..];
    assert AllSpace(s[j..]);
    if r != [] {
      assert r[0] == a[0];
    }
    assert r == s[i..j] && AllSpace(s[..i]) && AllSpace(s[j..])
        && (r == [] || (!IsSpace(r[0]) && !IsSpace(r[|r| - 1])));
  }

  /** Stripping twice is stripping once. */
  lemma StripIdempotent(s: string)
    ensures Strip(Strip(s)) == Strip(s)
  {
    var a := StripStart(s);
    var r := StripEnd(a);
    StripStartSpec(s);
    StripEndSpec(a);
    if r != [] {
      assert r[0] == a[0];
      assert StripStart(r) == r;
    }
  }

  /** A string strips to nothing exactly when all of it is white space. */
  lemma StripEmptyIff(s: string)
    ensures Strip(s) == [] <==> AllSpace(s)
  {
    var a := StripStart(s);
    StripStartSpec(s);
    StripEndSpec(a);
    if a != [] {
      assert a[0] == s[|s| - |a|];
      assert !AllSpace(s) by {
        assert !IsSpace(s[|s| - |a|]);
      }
      assert a[0..] == a;
    } else {
      assert s[..|s|] == s;
    }
  }

  /** Leading white space does not change the result of `Strip`. */
  lemma StripSkipsLeadingSpace(w: string, x: string)
    requires AllSpace(w)
    ensures Strip(w + x) == Strip(x)
  {
    StartSkipsLeadingSpace(w, x);
  }

  lemma {:induction false} StartSkipsLeadingSpace(w: string, x: string)
    requires AllSpace(w)
    ensures StripStart(w + x) == StripStart(x)
    decreases |w|
  {
    if w != [] {
      var wx := w + x;
      assert wx[0] == w[0];
      assert wx[1..] == w[1..] + x;
      assert AllSpace(w[1..]) by {
        forall k | 0 <= k < |w| - 1 ensures IsSpace(w[1..][k]) {
          assert w[1..][k] == w[k + 1];
        }
      }
      StartSkipsLeadingSpace(w[1..], x);
    } else {
      assert w + x == x;
    }
  }

  /** A white-space character at the end does not change the result of `Strip`. */
  lemma StripSkipsTrailingSpace(x: string, c: char)
    requires IsSpace(c)
    ensures Strip(x + [c]) == Strip(x)
  {
    var a := StripStart(x);
    if a == [] {
      StartAllSpaceAppend(x, c);
    } else {
      StripStartAppend(x, c);
      assert StripStart(x + [c]) == a + [c];
      assert (a + [c])[..|a + [c]| - 1] == a;
    }
  }

  lemma {:induction false} StartAllSpaceAppend(x: string, c: char)
    requires IsSpace(c) && StripStart(x) == []
    ensures StripStart(x + [c]) == []
    decreases |x|
  {
    if x == [] {
      assert StripStart([c]) == StripStart([]);
    } else {
      assert (x + [c])[1..] == x[1..] + [c];
      StartAllSpaceAppend(x[1..], c);
    }
  }

  lemma {:induction false} StripStartAppend(x: string, c: char)
    requires StripStart(x) != []
    ensures StripStart(x + [c]) == StripStart(x) + [c]
    decreases |x|
  {
    if IsSpace(x[0]) {
      assert (x + [c])[1..] == x[1..] + [c];
      StripStartAppend(x[1..], c);
    }
  }

  /** Left stripping stops at the first character that is not white space. */
  lemma {:induction false} StripStartBeforeMark(a: string, c: char, b: string)
    requires !IsSpace(c)
    ensures StripStart(a + [c] + b) == StripStart(a) + [c] + b
    decreases |a|
  {
    if a == [] {
      assert a + [c] + b == [c] + b;
    } else if IsSpace(a[0]) {
      assert (a + [c] + b)[1..] == a[1..] + [c] + b;
      StripStartBeforeMark(a[1..], c, b);
    }
  }

  /** Right stripping stops at the last character that is not white space. */
  lemma {:induction false} StripEndAfterMark(a: string, c: char, b: string)
    requires !IsSpace(c)
    ensures StripEnd(a + [c] + b) == a + [c] + StripEnd(b)
    decreases |b|
  {
    if b == [] {
      assert a + [c] + b == a + [c];
    } else if IsSpace(b[|b| - 1]) {
      var s := a + [c] + b;
      assert s[..|s| - 1] == a + [c] + b[..|b| - 1];
      StripEndAfterMark(a, c, b[..|b| - 1]);
    }
  }

  /** Trailing white space does not change the result of `Strip`. */
  lemma {:induction false} StripSkipsTrailingSpaces(x: string, w: string)
    requires AllSpace(w)
    ensures Strip(x + w) == Strip(x)
    decreases |w|
  {
    if w != [] {
      var u := w[..|w| - 1];
      assert x + w == (x + u) + [w[|w| - 1]];
      StripSkipsTrailingSpace(x + u, w[|w| - 1]);
      StripSkipsTrailingSpaces(x, u);
    } else {
      assert x + w == x;
    }
  }

  // ---------------------------------------------------------------- split / join

  /** The inverse of `Split`: the parts glued together with `sep` between them. */
  function Join(parts: seq<string>, sep: char): string
    requires |parts| >= 1
  {
    if |parts| == 1 then parts[0] else parts[0] + [sep] + Join(parts[1..], sep)
  }

  /** `s.split(sep)` for a one-character separator: the maximal pieces of `s`
      between occurrences of `sep`; the empty string gives one empty piece. */
  function Split(s: string, sep: char): seq<string>
    decreases |s|
  {
    if s == [] then [""]
    else
      var rest := Split(s[1..], sep);
      if s[0] == sep then [""] + rest
      else [[s[0]] + rest[0]] + rest[1..]
  }

  /** The pieces are free of `sep`, and joining them with `sep` gives `s` back. */
  lemma {:induction false} SplitSpec(s: string, sep: char)
    ensures |Split(s, sep)| >= 1
    ensures forall k | 0 <= k < |Split(s, sep)| :: sep !in Split(s, sep)[k]
    ensures Join(Split(s, sep), sep) == s
    decreases |s|
  {
    if s != [] {
      var rest := Split(s[1..], sep);
      SplitSpec(s[1..], sep);
      var parts := Split(s, sep);
      if s[0] == sep {
        assert parts == [""] + rest;
        assert parts[1..] == rest;
        forall k | 0 <= k < |parts| ensures sep !in parts[k] {
          if k > 0 {
            assert parts[k] == rest[k - 1];
          }
        }
      } else {
        assert parts == [[s[0]] + rest[0]] + rest[1..];
        JoinConsFirst(s[0], rest, sep);
        forall k | 0 <= k < |parts| ensures sep !in parts[k] {
          if k > 0 {
            assert parts[k] == rest[k];
          } else {
            assert parts[0] == [s[0]] + rest[0];
          }
        }
      }
    }
  }

  lemma JoinConsFirst(c: char, parts: seq<string>, sep: char)
    requires |parts| >= 1
    ensures Join([[c] + parts[0]] + parts[1..], sep) == [c] + Join(parts, sep)
  {
    var ps := [[c] + parts[0]] + parts[1..];
    if |parts| > 1 {
      assert ps[1..] == parts[1..];
    }
  }

  /** `Split` is the only way to cut `s` at `sep` into pieces free of `sep`. */
  lemma {:induction false} SplitUnique(s: string, sep: char, parts: seq<string>)
    requires |parts| >= 1
    requires forall k | 0 <= k < |parts| :: sep !in parts[k]
    requires Join(parts, sep) == s
    ensures parts == Split(s, sep)
    decreases |s|, |parts|
  {
    if |parts| == 1 {
      assert sep !in s;
      SplitNoSep(s, sep);
    } else if parts[0] == [] {
      var tail := parts[1..];
      assert s == [sep] + Join(tail, sep);
      assert s[1..] == Join(tail, sep);
      SplitUnique(s[1..], sep, tail);
      assert parts == [""] + tail;
    } else {
      var tail := [parts[0][1..]] + parts[1..];
      assert tail[1..] == parts[1..];
      assert Join(tail, sep) == parts[0][1..] + [sep] + Join(parts[1..], sep);
      assert s == [parts[0][0]] + Join(tail, sep);
      assert s[0] == parts[0][0] && s[0] != sep by {
        assert parts[0][0] in parts[0];
      }
      forall k | 0 <= k < |tail| ensures sep !in tail[k] {
        if k == 0 {
          assert forall x | x in parts[0][1..] :: x in parts[0];
        } else {
          assert tail[k] == parts[k];
        }
      }
      assert s[1..] == Join(tail, sep);
      SplitUnique(s[1..], sep, tail);
      assert [s[0]] + tail[0] == parts[0];
      assert parts == [[s[0]] + tail[0]] + tail[1..];
    }
  }

  lemma {:induction false} SplitNoSep(s: string, sep: char)
    requires sep !in s
    ensures Split(s, sep) == [s]
    decreases |s|
  {
    if s != [] {
      assert sep !in s[1..] by {
        assert forall x | x in s[1..] :: x in s;
      }
      SplitNoSep(s[1..], sep);
      assert s[0] != sep by {
        assert s[0] in s;
      }
      assert [s[0]] + s[1..] == s;
    }
  }

  // ---------------------------------------------------------------- prefixes and case

  predicate StartsWith(s: string, prefix: string) {
    |prefix| <= |s| && s[..|prefix|] == prefix
  }

  function UpperChar(c: char): char {
    if 'a' <= c <= 'z' then (c as int - 32) as char else c
  }

  function LowerChar(c: char): char {
    if 'A' <= c <= 'Z' then (c as int + 32) as char else c
  }

  /** `s.upper()`, for the ASCII letters. */
  function Upper(s: string): (r: string)
    ensures |r| == |s|
    ensures forall k | 0 <= k < |s| :: r[k] == UpperChar(s[k])
  {
    seq(|s|, k requires 0 <= k < |s| => UpperChar(s[k]))
  }

  /** `s.lower()`, for the ASCII letters. */
  function Lower(s: string): (r: string)
    ensures |r| == |s|
    ensures forall k | 0 <= k < |s| :: r[k] == LowerChar(s[k])
  {
    seq(|s|, k requires 0 <= k < |s| => LowerChar(s[k]))
  }

  /** Lower-casing forgets any earlier upper-casing: `s.upper().lower() == s.lower()`. */
  lemma LowerOfUpper(s: string)
    ensures Lower(Upper(s)) == Lower(s)
  {
  }

  // ---------------------------------------------------------------- decimal digits

  function DigitChar(d: nat): char
    requires d < 10
  {
    ('0' as int + d) as char
  }

  predicate IsDigit(c: char) {
    '0' <= c <= '9'
  }

  predicate AllDigits(s: string) {
    forall k | 0 <= k < |s| :: IsDigit(s[k])
  }

  /** The number a string of decimal digits denotes. */
  function DigitsValue(s: string): nat
    requires AllDigits(s)
  {
    if s == [] then 0
    else DigitsValue(s[..|s| - 1]) * 10 + (s[|s| - 1] as int - '0' as int)
  }

  function Pow10(w: nat): (p: nat)
    ensures p >= 1
  {
    if w == 0 then 1 else 10 * Pow10(w - 1)
  }

  /** `n` in exactly `w` decimal digits with leading zeros, as `%02d` / `%04d`
      (and `strftime`'s `%m`, `%d`, `%H`, `%M`, `%Y`) render it. */
  function Padded(n: nat, w: nat): (r: string)
    ensures |r| == w && AllDigits(r)
  {
    if w == 0 then [] else Padded(n / 10, w - 1) + [DigitChar(n % 10)]
  }

  /** Reading back a padded number gives the number, as long as it fits in `w` digits. */
  lemma {:induction false} PaddedValue(n: nat, w: nat)
    requires n < Pow10(w)
    ensures DigitsValue(Padded(n, w)) == n
  {
    if w > 0 {
      var r := Padded(n, w);
      assert r[..|r| - 1] == Padded(n / 10, w - 1);
      PaddedValue(n / 10, w - 1);
    }
  }

  /** `str(n)` / `f"{n}"` for a natural number: its decimal digits, no leading zero. */
  function Decimal(n: nat): (r: string)
    ensures |r| >= 1 && AllDigits(r)
  {
    if n < 10 then [DigitChar(n)] else Decimal(n / 10) + [DigitChar(n % 10)]
  }

  /** `Decimal` is read back by `DigitsValue` and never has a superfluous leading zero. */
  lemma {:induction false} DecimalValue(n: nat)
    ensures DigitsValue(Decimal(n)) == n
    ensures Decimal(n)[0] == '0' ==> n == 0
  {
    if n >= 10 {
      var r := Decimal(n);
      assert r[..|r| - 1] == Decimal(n / 10);
      DecimalValue(n / 10);
    }
  }
}
