/** The three string operations the explorer uses: `toLowerCase`
    (ASCII letters only), `includes` (substring search) and
    `localeCompare` (modelled as plain lexicographic order on characters). */
module Strings {

  /** The ASCII upper-case letters. */
  predicate IsUpper(c: char) { 'A' <= c <= 'Z' }

  /** ASCII case folding of one character: an upper-case letter becomes the
      lower-case letter at the same place in the alphabet, anything else is kept. */
  function LowerChar(c: char): (d: char)
    ensures IsUpper(c) ==> d == "abcdefghijklmnopqrstuvwxyz"[c as int - 'A' as int]
    ensures !IsUpper(c) ==> d == c
    ensures !IsUpper(d)
  {
    if IsUpper(c) then (c as int + 32) as char else c
  }

  /** `s.toLowerCase()`, for ASCII letters. */
  function ToLower(s: string): (r: string)
  {
    seq(|s|, i requires 0 <= i < |s| => LowerChar(s[i]))
  }

  /** The lower-cased string has no upper-case letter left, and folding it again changes nothing. */
  lemma ToLowerIdempotent(s: string)
    ensures forall i :: 0 <= i < |s| ==> !IsUpper(ToLower(s)[i])
    ensures ToLower(ToLower(s)) == ToLower(s)
  {
  }

  /** `t` occurs in `s` starting at index `i`. */
  predicate OccursAt(s: string, t: string, i: int)
  {
    0 <= i && i + |t| <= |s| && s[i..i + |t|] == t
  }

  /** The characters `t[k..]` match `s` from index `i + k` on. */
  predicate MatchesFrom(s: string, t: string, i: nat, k: nat)
    decreases |t| - k
  {
    k >= |t| || (i + k < |s| && s[i + k] == t[k] && MatchesFrom(s, t, i, k + 1))
  }

  /** `t` occurs in `s` at some index `i` or later. */
  predicate IncludesFrom(s: string, t: string, i: nat)
    decreases |s| - i
  {
    (i + |t| <= |s| && MatchesFrom(s, t, i, 0)) || (i < |s| && IncludesFrom(s, t, i + 1))
  }

  /** `s.includes(t)`: the search scans every start index. */
  predicate Includes(s: string, t: string)
  {
    IncludesFrom(s, t, 0)
  }

  lemma {:induction false} MatchesFromIff(s: string, t: string, i: nat, k: nat)
    requires k <= |t| && i + |t| <= |s|
    ensures MatchesFrom(s, t, i, k) <==> s[i + k..i + |t|] == t[k..]
    decreases |t| - k
  {
    if k < |t| {
      MatchesFromIff(s, t, i, k + 1);
      assert s[i + k..i + |t|] == [s[i + k]] + s[i + k + 1..i + |t|];
      assert t[k..] == [t[k]] + t[k + 1..];
    }
  }

  lemma {:induction false} IncludesFromIff(s: string, t: string, i: nat)
    ensures IncludesFrom(s, t, i) <==> exists j :: i <= j && OccursAt(s, t, j)
    decreases |s| - i
  {
    if i + |t| <= |s| {
      MatchesFromIff(s, t, i, 0);
      assert MatchesFrom(s, t, i, 0) <==> OccursAt(s, t, i);
    }
    if i < |s| {
      IncludesFromIff(s, t, i + 1);
    }
    if IncludesFrom(s, t, i) {
      if i + |t| <= |s| && MatchesFrom(s, t, i, 0) {
        assert OccursAt(s, t, i);
      } else {
        var j :| i + 1 <= j && OccursAt(s, t, j);
        assert i <= j;
      }
    }
    if exists j :: i <= j && OccursAt(s, t, j) {
      var j :| i <= j && OccursAt(s, t, j);
      if j != i {
        assert i + 1 <= j && OccursAt(s, t, j);
      }
    }
  }

  /** `Includes` finds an occurrence exactly when one exists. */
  lemma IncludesIff(s: string, t: string)
    ensures Includes(s, t) <==> exists i :: OccursAt(s, t, i)
  {
    IncludesFromIff(s, t, 0);
  }

  /** The empty string is included in every string. */
  lemma IncludesEmpty(s: string)
    ensures Includes(s, "")
  {
  }

  /** Case-insensitive matching, comparing the folded characters of `s` and `t` one by one. */
  predicate MatchesFromIgnoringCase(s: string, t: string, i: nat, k: nat)
    decreases |t| - k
  {
    k >= |t| || (i + k < |s| && LowerChar(s[i + k]) == LowerChar(t[k]) && MatchesFromIgnoringCase(s, t, i, k + 1))
  }

  predicate IncludesFromIgnoringCase(s: string, t: string, i: nat)
    decreases |s| - i
  {
    (i + |t| <= |s| && MatchesFromIgnoringCase(s, t, i, 0)) || (i < |s| && IncludesFromIgnoringCase(s, t, i + 1))
  }

  /** Lower-casing both strings and then searching is character-wise case-insensitive search. */
  lemma {:induction false} IncludesLowerIgnoresCase(s: string, t: string, i: nat)
    ensures IncludesFrom(ToLower(s), ToLower(t), i) <==> IncludesFromIgnoringCase(s, t, i)
    decreases |s| - i
  {
    var ls, lt := ToLower(s), ToLower(t);
    MatchesLowerIgnoresCase(s, t, i, 0);
    if i < |s| {
      IncludesLowerIgnoresCase(s, t, i + 1);
    }
    assert IncludesFrom(ls, lt, i) == ((i + |lt| <= |ls| && MatchesFrom(ls, lt, i, 0)) || (i < |ls| && IncludesFrom(ls, lt, i + 1)));
  }

  lemma {:induction false} MatchesLowerIgnoresCase(s: string, t: string, i: nat, k: nat)
    ensures MatchesFrom(ToLower(s), ToLower(t), i, k) <==> MatchesFromIgnoringCase(s, t, i, k)
    decreases |t| - k
  {
    var ls, lt := ToLower(s), ToLower(t);
    if k < |t| {
      MatchesLowerIgnoresCase(s, t, i, k + 1);
      assert lt[k] == LowerChar(t[k]);
      if i + k < |s| {
        assert ls[i + k] == LowerChar(s[i + k]);
      }
      assert MatchesFrom(ls, lt, i, k) == (i + k < |ls| && ls[i + k] == lt[k] && MatchesFrom(ls, lt, i, k + 1));
    }
  }

  /** `a.localeCompare(b)`, modelled as lexicographic order on character codes:
      negative when `a` comes first, zero when equal, positive when `b` comes first. */
  function LocaleCompare(a: string, b: string): (r: int)
    ensures -1 <= r <= 1
  {
    if a == [] && b == [] then 0
    else if a == [] then -1
    else if b == [] then 1
    else if a[0] < b[0] then -1
    else if a[0] > b[0] then 1
    else LocaleCompare(a[1..], b[1..])
  }

  /** Only equal strings compare as equal. */
  lemma {:induction false} LocaleCompareZero(a: string, b: string)
    ensures LocaleCompare(a, b) == 0 <==> a == b
  {
    if a != [] && b != [] && a[0] == b[0] {
      LocaleCompareZero(a[1..], b[1..]);
      assert a == [a[0]] + a[1..] && b == [b[0]] + b[1..];
    }
  }

  /** Swapping the arguments flips the sign. */
  lemma {:induction false} LocaleCompareAntisymmetric(a: string, b: string)
    ensures LocaleCompare(a, b) == -LocaleCompare(b, a)
  {
    if a != [] && b != [] && a[0] == b[0] {
      LocaleCompareAntisymmetric(a[1..], b[1..]);
    }
  }

  /** "Comes no later than" is transitive. */
  lemma {:induction false} LocaleCompareTransitive(a: string, b: string, c: string)
    requires LocaleCompare(a, b) <= 0 && LocaleCompare(b, c) <= 0
    ensures LocaleCompare(a, c) <= 0
  {
    if a != [] && b != [] && c != [] && a[0] == b[0] == c[0] {
      LocaleCompareTransitive(a[1..], b[1..], c[1..]);
    }
  }
}
