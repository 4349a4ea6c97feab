/** String operations of the JavaScript runtime that the validator relies on:
    `endsWith`, `replace` with a string pattern (first occurrence only) and the
    decimal rendering of a number inside a string concatenation. */
module Text {

  datatype Option<T> = None | Some(value: T)

  predicate StartsWith(s: string, prefix: string) {
    |prefix| <= |s| && s[..|prefix|] == prefix
  }

  /** `s.endsWith(suffix)` */
  predicate EndsWith(s: string, suffix: string) {
    |suffix| <= |s| && s[|s| - |suffix|..] == suffix
  }

  /** `pat` sits in `s` starting at index `i`. */
  predicate OccursAt(s: string, pat: string, i: nat) {
    i + |pat| <= |s| && s[i..i + |pat|] == pat
  }

  ghost predicate Contains(s: string, pat: string) {
    exists i: nat :: OccursAt(s, pat, i)
  }

  /** `i` is the least index at which `pat` occurs in `s`. */
  ghost predicate FirstOccurrence(s: string, pat: string, i: nat) {
    OccursAt(s, pat, i) && forall j: nat :: j < i ==> !OccursAt(s, pat, j)
  }

  lemma OccursAtShift(s: string, pat: string, i: nat)
    requires |s| > 0
    ensures OccursAt(s, pat, i + 1) <==> OccursAt(s[1..], pat, i)
  {
    if i + 1 + |pat| <= |s| {
      assert s[i + 1..i + 1 + |pat|] == s[1..][i..i + |pat|];
    }
  }

  /** `s.indexOf(pat)`: the least index at which `pat` occurs, if any. */
  function FindFirst(s: string, pat: string): (r: Option<nat>)
    ensures r.Some? ==> FirstOccurrence(s, pat, r.value)
    ensures r.None? ==> forall j: nat :: !OccursAt(s, pat, j)
    decreases |s|
  {
    if StartsWith(s, pat) then
      Some(0)
    else if |s| == 0 then
      None
    else
      var rest := FindFirst(s[1..], pat);
      assert !OccursAt(s, pat, 0);
      if rest.None? then
        assert forall j: nat :: !OccursAt(s, pat, j) by {
          forall j: nat ensures !OccursAt(s, pat, j) {
            if j > 0 { OccursAtShift(s, pat, j - 1); }
          }
        }
        None
      else
        OccursAtShift(s, pat, rest.value);
        assert forall j: nat :: j < rest.value + 1 ==> !OccursAt(s, pat, j) by {
          forall j: nat | j < rest.value + 1 ensures !OccursAt(s, pat, j) {
            if j > 0 { OccursAtShift(s, pat, j - 1); }
          }
        }
        Some(rest.value + 1)
  }

  /** `s.replace(pat, rep)` with a string pattern and a replacement holding
      no `$` (JavaScript expands `$&`, `$$` and the like in `rep`): only the
      first occurrence of `pat`, wherever it is, is replaced; without one,
      `s` is unchanged. */
  function ReplaceFirst(s: string, pat: string, rep: string): (r: string)
    ensures (forall j: nat :: !OccursAt(s, pat, j)) ==> r == s
    ensures forall i: nat :: FirstOccurrence(s, pat, i) ==> r == s[..i] + rep + s[i + |pat|..]
  {
    match FindFirst(s, pat)
    case None => s
    case Some(i) => s[..i] + rep + s[i + |pat|..]
  }

  lemma OccursInPrefix(t: string, u: string, pat: string, j: nat)
    requires OccursAt(t + u, pat, j) && j + |pat| <= |t|
    ensures OccursAt(t, pat, j)
  {
    assert t[j..j + |pat|] == (t + u)[j..j + |pat|];
  }

  /** The first occurrence of `pat` in `a + pat + b` is the one right after
      `a`, provided `a` holds none and `pat` cannot overlap itself there. */
  lemma FirstOccurrenceAfter(a: string, pat: string, b: string)
    requires |pat| > 0 && pat[0] !in pat[1..]
    requires !Contains(a, pat)
    ensures FindFirst(a + pat + b, pat) == Some(|a|)
  {
    var s := a + pat + b;
    assert s[|a|..|a| + |pat|] == pat;
    assert OccursAt(s, pat, |a|);
    forall j: nat | j < |a| ensures !OccursAt(s, pat, j) {
      if OccursAt(s, pat, j) {
        if j + |pat| <= |a| {
          assert s == a + (pat + b);
          OccursInPrefix(a, pat + b, pat, j);
          assert false;
        } else {
          assert false;
        }
      }
    }
  }

  /** Replacing the first `pat` in `a + pat + b`, under the same conditions,
      replaces the one right after `a`. */
  lemma ReplaceFirstAfter(a: string, pat: string, b: string, rep: string)
    requires |pat| > 0 && pat[0] !in pat[1..]
    requires !Contains(a, pat)
    ensures ReplaceFirst(a + pat + b, pat, rep) == a + rep + b
  {
    FirstOccurrenceAfter(a, pat, b);
    var s := a + pat + b;
    assert s[..|a|] == a;
    assert s[|a| + |pat|..] == b;
  }

  /** A string without the first character of `pat` cannot contain `pat`. */
  lemma NotContainsByFirstChar(a: string, pat: string)
    requires |pat| > 0 && pat[0] !in a
    ensures !Contains(a, pat)
  {
  }

  lemma ReplaceFirstAtStart(s: string, pat: string, rep: string)
    requires StartsWith(s, pat)
    ensures ReplaceFirst(s, pat, rep) == rep + s[|pat|..]
  {
    assert FindFirst(s, pat) == Some(0);
    assert s[..0] + rep == rep;
  }

  function Digit(d: nat): (c: char)
    requires d < 10
    ensures '0' <= c <= '9' && c as int - '0' as int == d
  {
    ('0' as int + d) as char
  }

  /** The text of a non-negative JavaScript number in a string concatenation. */
  function Decimal(n: nat): (r: string)
    ensures |r| > 0
    ensures forall i :: 0 <= i < |r| ==> '0' <= r[i] <= '9'
    ensures DigitsValue(r) == n
    ensures r[0] == '0' ==> r == "0"
  {
    if n < 10 then [Digit(n)] else
      var r := Decimal(n / 10) + [Digit(n % 10)];
      assert r[..|r| - 1] == Decimal(n / 10);
      r
  }

  /** The number a string of decimal digits denotes. */
  function DigitsValue(s: string): nat
    requires forall i :: 0 <= i < |s| ==> '0' <= s[i] <= '9'
  {
    if s == [] then 0 else DigitsValue(s[..|s| - 1]) * 10 + (s[|s| - 1] as int - '0' as int)
  }
}
