/**
 * The string operations the detectors rely on: ASCII lower-casing, the last
 * occurrence of a character, Python's `str.replace` and the `{n:0Wd}`
 * zero-padded decimal format.
 */
module Text {
  import opened Common

  predicate IsDigit(c: char) {
    '0' <= c <= '9'
  }

  predicate AllDigits(s: string) {
    forall i :: 0 <= i < |s| ==> IsDigit(s[i])
  }

  /** `str.lower()` restricted to the ASCII letters. */
  function LowerChar(c: char): char {
    if 'A' <= c <= 'Z' then (c as int + 32) as char else c
  }

  function ToLower(s: string): string {
    seq(|s|, i requires 0 <= i < |s| => LowerChar(s[i]))
  }

  /** Position `i` holds the last `c` of `s`. */
  predicate LastAt(s: string, c: char, i: nat) {
    i < |s| && s[i] == c && c !in s[i + 1..]
  }

  /** Index of the last `c` in `s`, the split point of `s.rsplit(c, 1)`. */
  function LastIndexOf(s: string, c: char): (r: Option<nat>)
    ensures r.None? <==> c !in s
    ensures r.Some? ==> LastAt(s, c, r.value)
  {
    if s == [] then None
    else if s[|s| - 1] == c then Some(|s| - 1)
    else
      var r := LastIndexOf(s[..|s| - 1], c);
      assert s == s[..|s| - 1] + [s[|s| - 1]];
      r
  }

  /** Only one position holds a `c` with no `c` after it. */
  lemma LastOccurrenceUnique(s: string, c: char, i: nat, j: nat)
    requires LastAt(s, c, i) && LastAt(s, c, j)
    ensures i == j
  {
  }

  /** `pat` starts at position `i` of `s`. */
  predicate OccursAt(s: string, pat: string, i: nat) {
    i + |pat| <= |s| && s[i..i + |pat|] == pat
  }

  ghost predicate Occurs(s: string, pat: string) {
    exists i: nat :: OccursAt(s, pat, i)
  }

  /**
   * Python's `s.replace(pat, rep)`: scan left to right and replace every
   * non-overlapping occurrence of `pat`.
   */
  function ReplaceAll(s: string, pat: string, rep: string): (r: string)
    requires pat != ""
    ensures !Occurs(s, pat) ==> r == s
    decreases |s|
  {
    if |s| < |pat| then s
    else if s[..|pat|] == pat then
      assert OccursAt(s, pat, 0);
      rep + ReplaceAll(s[|pat|..], pat, rep)
    else
      assert forall i: nat :: OccursAt(s[1..], pat, i) ==> OccursAt(s, pat, i + 1);
      [s[0]] + ReplaceAll(s[1..], pat, rep)
  }

  /** Where `s` starts with `pat`, the replaced text starts with `rep`. */
  lemma ReplaceStartsWithRep(s: string, pat: string, rep: string)
    requires pat != "" && rep != [] && |s| >= |pat| && s[..|pat|] == pat
    ensures ReplaceAll(s, pat, rep)[0] == rep[0]
  {
    assert ReplaceAll(s, pat, rep) == rep + ReplaceAll(s[|pat|..], pat, rep);
  }

  /**
   * A prefix of the replaced text that cannot contain the start of `rep` was
   * copied unchanged from the front of `s`.
   */
  lemma {:induction false} ReplacePrefixCopied(s: string, pat: string, rep: string, q: string)
    requires pat != "" && rep != [] && rep[0] !in q
    requires q <= ReplaceAll(s, pat, rep)
    ensures q <= s
    decreases |s|
  {
    if q != [] && |s| >= |pat| {
      if s[..|pat|] == pat {
        ReplaceStartsWithRep(s, pat, rep);
        assert false;
      } else {
        var r := ReplaceAll(s[1..], pat, rep);
        assert ReplaceAll(s, pat, rep) == [s[0]] + r;
        assert q[1..] <= r;
        ReplacePrefixCopied(s[1..], pat, rep, q[1..]);
        assert q == [q[0]] + q[1..];
      }
    }
  }

  /**
   * When the only candidate start of `pat` (its first character, a dot) is at
   * the very end, the replacement rewrites exactly the suffix.
   */
  lemma {:induction false} ReplaceDotFreeStem(stem: string, pat: string, rep: string)
    requires pat != "" && pat[0] == '.' && '.' !in stem
    ensures ReplaceAll(stem + pat, pat, rep) == stem + rep
    decreases |stem|
  {
    var s := stem + pat;
    if stem == [] {
      assert s == pat;
      assert s[|pat|..] == [];
    } else {
      assert s[..|pat|][0] == stem[0] != '.';
      assert s[..|pat|] != pat;
      assert s[1..] == stem[1..] + pat;
      calc {
        ReplaceAll(s, pat, rep);
        [s[0]] + ReplaceAll(s[1..], pat, rep);
        { ReplaceDotFreeStem(stem[1..], pat, rep); }
        [stem[0]] + (stem[1..] + rep);
        { assert stem == [stem[0]] + stem[1..]; }
        stem + rep;
      }
    }
  }

  function DigitChar(d: nat): char
    requires d < 10
  {
    ('0' as int + d) as char
  }

  function DigitValue(c: char): nat
    requires IsDigit(c)
  {
    c as int - '0' as int
  }

  /** The decimal numeral of `n`, most significant digit first, as `str(n)`. */
  function DecimalDigits(n: nat): (r: string)
    ensures |r| >= 1 && AllDigits(r)
    ensures r[0] == '0' ==> n == 0 && r == "0"
  {
    if n < 10 then [DigitChar(n)] else DecimalDigits(n / 10) + [DigitChar(n % 10)]
  }

  /** The number a string of decimal digits denotes, leading zeros allowed. */
  function DecimalValue(s: string): nat
    requires AllDigits(s)
  {
    if s == [] then 0 else DecimalValue(s[..|s| - 1]) * 10 + DigitValue(s[|s| - 1])
  }

  lemma {:induction false} DecimalRoundTrip(n: nat)
    ensures DecimalValue(DecimalDigits(n)) == n
  {
    if n >= 10 {
      var s := DecimalDigits(n);
      assert s[..|s| - 1] == DecimalDigits(n / 10);
      DecimalRoundTrip(n / 10);
    }
  }

  function Zeros(k: nat): (r: string)
    ensures |r| == k && AllDigits(r)
  {
    if k == 0 then "" else Zeros(k - 1) + "0"
  }

  lemma {:induction false} ZerosValue(k: nat)
    ensures DecimalValue(Zeros(k)) == 0
  {
    if k > 0 {
      assert Zeros(k)[..k - 1] == Zeros(k - 1);
      ZerosValue(k - 1);
    }
  }

  lemma {:induction false} LeadingZeros(k: nat, s: string)
    requires AllDigits(s)
    ensures AllDigits(Zeros(k) + s) && DecimalValue(Zeros(k) + s) == DecimalValue(s)
    decreases |s|
  {
    var t := Zeros(k) + s;
    if s == [] {
      assert t == Zeros(k);
      ZerosValue(k);
    } else {
      assert t[..|t| - 1] == Zeros(k) + s[..|s| - 1];
      LeadingZeros(k, s[..|s| - 1]);
    }
  }

  /** Python's `f"{n:0{width}d}"` for a non-negative `n`. */
  function ZeroPad(n: nat, width: nat): (r: string)
    ensures AllDigits(r)
    ensures |r| == if width > |DecimalDigits(n)| then width else |DecimalDigits(n)|
  {
    var digits := DecimalDigits(n);
    if width > |digits| then Zeros(width - |digits|) + digits else digits
  }

  /** Zero padding never changes the number: parsing the padded text gives `n` back. */
  lemma ZeroPadRoundTrip(n: nat, width: nat)
    ensures DecimalValue(ZeroPad(n, width)) == n
  {
    var digits := DecimalDigits(n);
    DecimalRoundTrip(n);
    if width > |digits| {
      assert ZeroPad(n, width) == Zeros(width - |digits|) + digits;
      LeadingZeros(width - |digits|, digits);
    } else {
      assert ZeroPad(n, width) == digits;
    }
  }

  /** `os.path.join(directory, name)` for a relative `name`. */
  function JoinPath(directory: string, name: string): string {
    if directory == [] || directory[|directory| - 1] == '/' then directory + name else directory + "/" + name
  }

  lemma JoinPathInjective(directory: string, name1: string, name2: string)
    requires JoinPath(directory, name1) == JoinPath(directory, name2)
    ensures name1 == name2
  {
    var prefix := if directory == [] || directory[|directory| - 1] == '/' then directory else directory + "/";
    assert JoinPath(directory, name1) == prefix + name1 && JoinPath(directory, name2) == prefix + name2;
    assert name1 == (prefix + name1)[|prefix|..];
    assert name2 == (prefix + name2)[|prefix|..];
  }

  /**
   * A run of digits followed by a non-digit is read unambiguously: two such
   * splittings of one string agree.
   */
  lemma DigitRunSplit(a1: string, x1: string, a2: string, x2: string)
    requires AllDigits(a1) && AllDigits(a2)
    requires x1 != [] && x2 != [] && !IsDigit(x1[0]) && !IsDigit(x2[0])
    requires a1 + x1 == a2 + x2
    ensures a1 == a2 && x1 == x2
  {
    var s := a1 + x1;
    assert forall i :: 0 <= i < |a1| ==> s[i] == a1[i];
    assert forall i :: 0 <= i < |a2| ==> s[i] == a2[i];
    assert !IsDigit(s[|a1|]) && !IsDigit(s[|a2|]);
    assert |a1| == |a2|;
    assert a1 == (a1 + x1)[..|a1|];
    assert a2 == (a2 + x2)[..|a2|];
    assert x1 == (a1 + x1)[|a1|..];
    assert x2 == (a2 + x2)[|a2|..];
  }
}
