/** Character classes and string helpers with the meaning JavaScript gives them
    (ASCII case mapping, the regular-expression classes `\w`, `\s`, `\d`), plus the
    code-unit order JavaScript's `<` uses on strings. */
module Text {
  import opened Wrappers
  import Seqs

  predicate IsUpper(c: char) { 'A' <= c <= 'Z' }

  predicate IsLower(c: char) { 'a' <= c <= 'z' }

  /** `\d` */
  predicate IsDigit(c: char) { '0' <= c <= '9' }

  predicate IsAlnum(c: char) { IsUpper(c) || IsLower(c) || IsDigit(c) }

  /** `\w`: ASCII letters, digits and underscore. */
  predicate IsWordChar(c: char) { IsAlnum(c) || c == '_' }

  /** `\s`: the ECMAScript WhiteSpace and LineTerminator code points. */
  predicate IsSpace(c: char)
  {
    var n := c as int;
    (9 <= n <= 13) || n == 32 || n == 0xA0 || n == 0x1680 || (0x2000 <= n <= 0x200A)
    || n == 0x2028 || n == 0x2029 || n == 0x202F || n == 0x205F || n == 0x3000 || n == 0xFEFF
  }

  /** `toLowerCase` on one character (ASCII letters only). */
  function Lower(c: char): (r: char)
    ensures IsUpper(c) ==> IsLower(r)
    ensures !IsUpper(c) ==> r == c
    ensures IsUpper(r) == false
  {
    if IsUpper(c) then (c as int + 32) as char else c
  }

  /** `toUpperCase` on one character (ASCII letters only). */
  function Upper(c: char): (r: char)
    ensures IsLower(c) ==> IsUpper(r)
    ensures !IsLower(c) ==> r == c
    ensures IsLower(r) == false
  {
    if IsLower(c) then (c as int - 32) as char else c
  }

  function LowerStr(s: string): (r: string)
    ensures |r| == |s|
    ensures forall i :: 0 <= i < |s| ==> r[i] == Lower(s[i])
  {
    seq(|s|, i requires 0 <= i < |s| => Lower(s[i]))
  }

  lemma LowerStrIdempotent(s: string)
    ensures LowerStr(LowerStr(s)) == LowerStr(s)
  {
  }

  lemma LowerStrConcat(a: string, b: string)
    ensures LowerStr(a + b) == LowerStr(a) + LowerStr(b)
  {
  }

  /** `pat` occurs in `s` starting at index `i`. */
  predicate OccursAt(s: string, pat: string, i: int)
  {
    0 <= i && i + |pat| <= |s| && s[i..i + |pat|] == pat
  }

  /** `hay.includes(needle)` */
  predicate Contains(hay: string, needle: string)
  {
    exists i | 0 <= i <= |hay| - |needle| :: OccursAt(hay, needle, i)
  }

  lemma ContainsEmpty(hay: string)
    ensures Contains(hay, "")
  {
    assert OccursAt(hay, "", 0);
  }

  lemma OccursShift(s: string, pat: string, i: int)
    requires |s| > 0 && i >= 1
    ensures OccursAt(s, pat, i) <==> OccursAt(s[1..], pat, i - 1)
  {
    if i + |pat| <= |s| {
      assert s[i..i + |pat|] == s[1..][i - 1..i - 1 + |pat|];
    }
  }

  /** The first index at which `pat` occurs in `s`. */
  function IndexOf(s: string, pat: string): (r: Option<nat>)
    ensures r.Some? ==> OccursAt(s, pat, r.value)
    ensures r.Some? ==> forall j | 0 <= j < r.value :: !OccursAt(s, pat, j)
    ensures r.None? ==> forall j :: !OccursAt(s, pat, j)
    ensures r.None? <==> !Contains(s, pat)
    decreases |s|
  {
    if |pat| > |s| then None
    else if s[..|pat|] == pat then
      assert OccursAt(s, pat, 0);
      Some(0)
    else
      match IndexOf(s[1..], pat)
      case None =>
        assert forall j | j >= 1 :: !OccursAt(s, pat, j) by {
          forall j | j >= 1 ensures !OccursAt(s, pat, j) { OccursShift(s, pat, j); }
        }
        None
      case Some(k) =>
        OccursShift(s, pat, k + 1);
        assert forall j | 1 <= j < k + 1 :: !OccursAt(s, pat, j) by {
          forall j | 1 <= j < k + 1 ensures !OccursAt(s, pat, j) { OccursShift(s, pat, j); }
        }
        Some(k + 1)
  }

  /** `s.replace(pat, rep)` with a string pattern: only the first occurrence is replaced. */
  function ReplaceFirst(s: string, pat: string, rep: string): string
  {
    match IndexOf(s, pat)
    case None => s
    case Some(i) => s[..i] + rep + s[i + |pat|..]
  }

  /** The decimal digits of `n`, as `String(n)` prints a non-negative integer. */
  function NatToDecimal(n: nat): (r: string)
    ensures |r| > 0
    ensures forall i :: 0 <= i < |r| ==> IsDigit(r[i])
  {
    var d := ['0', '1', '2', '3', '4', '5', '6', '7', '8', '9'][n % 10];
    if n < 10 then [d] else NatToDecimal(n / 10) + [d]
  }

  /** Lexicographic order on code units: JavaScript's `a < b` on two strings. */
  predicate StrLt(a: string, b: string)
  {
    if |a| == 0 then |b| > 0
    else if |b| == 0 then false
    else if a[0] != b[0] then a[0] < b[0]
    else StrLt(a[1..], b[1..])
  }

  lemma {:induction false} StrLtIrreflexive(a: string)
    ensures !StrLt(a, a)
  {
    if |a| > 0 {
      StrLtIrreflexive(a[1..]);
    }
  }

  lemma {:induction false} StrLtTransitive(a: string, b: string, c: string)
    requires StrLt(a, b) && StrLt(b, c)
    ensures StrLt(a, c)
  {
    if |a| > 0 && |b| > 0 && |c| > 0 && a[0] == b[0] && b[0] == c[0] {
      StrLtTransitive(a[1..], b[1..], c[1..]);
    }
  }

  lemma {:induction false} StrLtTotal(a: string, b: string)
    requires a != b
    ensures StrLt(a, b) || StrLt(b, a)
  {
    if |a| > 0 && |b| > 0 && a[0] == b[0] {
      assert a == [a[0]] + a[1..];
      assert b == [b[0]] + b[1..];
      StrLtTotal(a[1..], b[1..]);
    }
  }

  /** Drops the trailing copies of `c`. */
  function TrimEnd(s: string, c: char): (r: string)
    ensures |r| <= |s|
  {
    if |s| > 0 && s[|s| - 1] == c then TrimEnd(s[..|s| - 1], c) else s
  }

  /** What is dropped is a run of `c` at the end: the rest is a prefix that does not
      end in `c`, and a string not ending in `c` is kept whole. */
  lemma {:induction false} TrimEndSpec(s: string, c: char)
    ensures var r := TrimEnd(s, c);
      && r <= s
      && r == s[..|r|]
      && (|r| > 0 ==> r[|r| - 1] != c)
      && (forall i | |r| <= i < |s| :: s[i] == c)
      && (|s| > 0 && s[|s| - 1] != c ==> r == s)
  {
    if |s| > 0 && s[|s| - 1] == c {
      TrimEndSpec(s[..|s| - 1], c);
    }
  }

  /** Drops the leading characters that satisfy `p`. */
  function DropWhile(s: string, p: char -> bool): (r: string)
    ensures |r| <= |s| && r == s[|s| - |r|..]
    ensures |r| > 0 ==> !p(r[0])
    ensures forall i | 0 <= i < |s| - |r| :: p(s[i])
  {
    if |s| > 0 && p(s[0]) then DropWhile(s[1..], p) else s
  }

  /** `s.replace(/P+/g, c)`: every maximal run of characters satisfying `p` becomes
      the single character `c`; every other character is copied. */
  function ReplaceRuns(s: string, p: char -> bool, c: char): (r: string)
    ensures |r| <= |s|
    ensures |s| > 0 ==> |r| > 0 && r[0] == (if p(s[0]) then c else s[0])
    ensures forall i | 0 <= i < |r| :: r[i] == c || (!p(r[i]) && r[i] in s)
    ensures p(c) ==> forall i | 0 <= i < |r| - 1 :: !(r[i] == c && r[i + 1] == c)
    decreases |s|
  {
    if |s| == 0 then ""
    else if p(s[0]) then [c] + ReplaceRuns(DropWhile(s[1..], p), p, c)
    else [s[0]] + ReplaceRuns(s[1..], p, c)
  }

  /** A string without characters of the class is left unchanged. */
  lemma {:induction false} ReplaceRunsNoMatch(s: string, p: char -> bool, c: char)
    requires forall i | 0 <= i < |s| :: !p(s[i])
    ensures ReplaceRuns(s, p, c) == s
  {
    if |s| > 0 {
      ReplaceRunsNoMatch(s[1..], p, c);
    }
  }

  /** When `c` is the only character of its class and never appears twice in a row,
      replacing runs changes nothing. */
  lemma {:induction false} ReplaceRunsSingletons(s: string, p: char -> bool, c: char)
    requires forall i | 0 <= i < |s| :: p(s[i]) <==> s[i] == c
    requires forall i | 0 <= i < |s| - 1 :: !(s[i] == c && s[i + 1] == c)
    ensures ReplaceRuns(s, p, c) == s
  {
    if |s| > 0 {
      if p(s[0]) {
        assert DropWhile(s[1..], p) == s[1..] by {
          if |s| > 1 {
            assert !p(s[1]);
          }
        }
      }
      ReplaceRunsSingletons(s[1..], p, c);
    }
  }

  lemma {:induction false} FilterDropWhile(s: string, p: char -> bool, q: char -> bool)
    requires forall x :: p(x) ==> !q(x)
    ensures Seqs.Filter(DropWhile(s, p), q) == Seqs.Filter(s, q)
  {
    if |s| > 0 && p(s[0]) {
      FilterDropWhile(s[1..], p, q);
    }
  }

  /** Replacing runs keeps every character outside the class, in order. */
  lemma {:induction false} ReplaceRunsKeepsOthers(s: string, p: char -> bool, c: char, q: char -> bool)
    requires !q(c)
    requires forall x :: p(x) ==> !q(x)
    ensures Seqs.Filter(ReplaceRuns(s, p, c), q) == Seqs.Filter(s, q)
    decreases |s|
  {
    if |s| > 0 {
      var r := ReplaceRuns(s, p, c);
      if p(s[0]) {
        var d := DropWhile(s[1..], p);
        ReplaceRunsKeepsOthers(d, p, c, q);
        FilterDropWhile(s[1..], p, q);
        Seqs.FilterConcat([c], ReplaceRuns(d, p, c), q);
      } else {
        ReplaceRunsKeepsOthers(s[1..], p, c, q);
        Seqs.FilterConcat([s[0]], ReplaceRuns(s[1..], p, c), q);
      }
    }
  }
}
