/** String helpers shared by the overlay and the game scanner: the small part of
    Python's `str` behaviour that the program relies on. Case mapping is modelled
    for ASCII letters only. */
module Text {

  /** An anchored (`re.match`), case-insensitive regular-expression test:
      `Matches(pattern, subject)`. The regex engine itself is not modelled. */
  type Matcher = (string, string) -> bool

  /** A matcher that ignores letter case in its subject, as `re.IGNORECASE` does. */
  ghost predicate CaseInsensitive(m: Matcher)
  {
    forall p: string, s: string :: m(p, Lower(s)) == m(p, s)
  }

  function LowerChar(c: char): (r: char)
    ensures 'A' <= c <= 'Z' ==> r as int == c as int + 32
    ensures !('A' <= c <= 'Z') ==> r == c
    ensures !('A' <= r <= 'Z')
  {
    if 'A' <= c <= 'Z' then (c as int + 32) as char else c
  }

  function UpperChar(c: char): (r: char)
    ensures 'a' <= c <= 'z' ==> r as int == c as int - 32
    ensures !('a' <= c <= 'z') ==> r == c
  {
    if 'a' <= c <= 'z' then (c as int - 32) as char else c
  }

  /** `s.lower()` */
  function Lower(s: string): (r: string)
    ensures |r| == |s|
    ensures forall i :: 0 <= i < |s| ==> r[i] == LowerChar(s[i])
  {
    seq(|s|, i requires 0 <= i < |s| => LowerChar(s[i]))
  }

  /** A string that `lower()` leaves unchanged. */
  predicate IsLower(s: string)
  {
    Lower(s) == s
  }

  lemma LowerIsLower(s: string)
    ensures IsLower(Lower(s))
  {
    assert forall i :: 0 <= i < |s| ==> LowerChar(LowerChar(s[i])) == LowerChar(s[i]);
  }

  /** `s.capitalize()`: first character upper case, the rest lower case. */
  function Capitalize(s: string): (r: string)
    ensures |r| == |s|
    ensures |s| > 0 ==> r[0] == UpperChar(s[0]) && r[1..] == Lower(s[1..])
  {
    if |s| == 0 then "" else [UpperChar(s[0])] + Lower(s[1..])
  }

  /** `s.startswith(prefix)` */
  predicate StartsWith(s: string, prefix: string)
  {
    |prefix| <= |s| && s[..|prefix|] == prefix
  }

  /** `s.endswith(suffix)` */
  predicate EndsWith(s: string, suffix: string)
  {
    |suffix| <= |s| && s[|s| - |suffix|..] == suffix
  }

  /** `part in s` for strings */
  predicate IsSubstring(part: string, s: string)
  {
    exists i :: 0 <= i <= |s| && StartsWith(s[i..], part)
  }

  /** `s[:-4]`: everything but the last four characters, empty when `s` is shorter. */
  function DropLast4(s: string): (r: string)
    ensures |s| >= 4 ==> |r| == |s| - 4 && s == r + s[|s| - 4..]
    ensures |s| < 4 ==> r == ""
  {
    if |s| <= 4 then "" else s[..|s| - 4]
  }

  function DigitChar(d: nat): (c: char)
    requires d < 10
    ensures '0' <= c <= '9'
  {
    ('0' as int + d) as char
  }

  /** `str(n)` for a natural number. */
  function Decimal(n: nat): (r: string)
    ensures |r| >= 1
    ensures forall i :: 0 <= i < |r| ==> '0' <= r[i] <= '9'
    ensures n >= 10 ==> |r| >= 2
  {
    if n < 10 then [DigitChar(n)] else Decimal(n / 10) + [DigitChar(n % 10)]
  }

  /** Distinct numbers print differently, so `text == str(i + 1)` picks out one index. */
  lemma {:induction false} DecimalInjective(a: nat, b: nat)
    requires Decimal(a) == Decimal(b)
    ensures a == b
  {
    if a < 10 && b < 10 {
      assert Decimal(a)[0] == DigitChar(a);
    } else if a >= 10 && b >= 10 {
      var da, db := Decimal(a), Decimal(b);
      assert da[|da| - 1] == DigitChar(a % 10);
      assert db[|db| - 1] == DigitChar(b % 10);
      assert da[..|da| - 1] == Decimal(a / 10);
      assert db[..|db| - 1] == Decimal(b / 10);
      DecimalInjective(a / 10, b / 10);
    }
  }

  /** `'\n'.join(parts)` */
  function JoinLines(parts: seq<string>): (r: string)
    ensures |parts| == 1 ==> r == parts[0]
  {
    if |parts| == 0 then ""
    else if |parts| == 1 then parts[0]
    else parts[0] + "\n" + JoinLines(parts[1..])
  }

  /** `s.split('\n')`: the pieces between newlines; never empty. */
  function SplitLines(s: string): (r: seq<string>)
    ensures |r| >= 1
  {
    if |s| == 0 then [""]
    else
      var rest := SplitLines(s[1..]);
      if s[0] == '\n' then [""] + rest else [[s[0]] + rest[0]] + rest[1..]
  }

  predicate NoNewline(s: string)
  {
    forall i :: 0 <= i < |s| ==> s[i] != '\n'
  }

  /** A newline-free prefix glues onto the first piece of what follows it. */
  lemma {:induction false} SplitPrefix(a: string, t: string)
    requires NoNewline(a)
    ensures SplitLines(a + t) == [a + SplitLines(t)[0]] + SplitLines(t)[1..]
  {
    if |a| > 0 {
      assert (a + t)[0] == a[0];
      assert (a + t)[1..] == a[1..] + t;
      SplitPrefix(a[1..], t);
      assert [a[0]] + (a[1..] + SplitLines(t)[0]) == a + SplitLines(t)[0];
    } else {
      assert a + t == t;
      assert a + SplitLines(t)[0] == SplitLines(t)[0];
      assert [SplitLines(t)[0]] + SplitLines(t)[1..] == SplitLines(t);
    }
  }

  /** Splitting `a + "\n" + t` yields `a` followed by the pieces of `t`. */
  lemma SplitLine(a: string, t: string)
    requires NoNewline(a)
    ensures SplitLines(a + "\n" + t) == [a] + SplitLines(t)
  {
    calc {
      SplitLines(a + "\n" + t);
      { assert a + "\n" + t == a + ("\n" + t); }
      SplitLines(a + ("\n" + t));
      { SplitPrefix(a, "\n" + t); }
      [a + SplitLines("\n" + t)[0]] + SplitLines("\n" + t)[1..];
      { assert ("\n" + t)[1..] == t; }
      [a + ""] + SplitLines(t);
      { assert a + "" == a; }
      [a] + SplitLines(t);
    }
  }

  /** `'\n'.join(parts).split('\n') == parts` when no part holds a newline. */
  lemma {:induction false} SplitJoin(parts: seq<string>)
    requires |parts| >= 1
    requires forall i :: 0 <= i < |parts| ==> NoNewline(parts[i])
    ensures SplitLines(JoinLines(parts)) == parts
  {
    if |parts| == 1 {
      SplitPrefix(parts[0], "");
      assert parts[0] + "" == parts[0];
    } else {
      SplitJoin(parts[1..]);
      SplitLine(parts[0], JoinLines(parts[1..]));
      assert [parts[0]] + parts[1..] == parts;
    }
  }
}
