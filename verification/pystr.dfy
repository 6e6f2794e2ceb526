/**
 Python string primitives the receipt generator relies on: `str.replace`, `str.join`,
 `str.count`, slicing with negative and out-of-range bounds, and the
 decimal-digit characters produced by `str(int)`.
 */
module PyStr {

  /** `pat` occurs somewhere in `s` (Python's `pat in s`). */
  ghost predicate IsInfix(pat: string, s: string) {
    exists i :: 0 <= i && OccursAt(pat, s, i)
  }

  /** `pat` occurs in `s` starting at index `i`. */
  ghost predicate OccursAt(pat: string, s: string, i: nat) {
    i + |pat| <= |s| && s[i..i + |pat|] == pat
  }

  /**
   `s.replace(pat, rep)`: scans left to right and replaces every
   non-overlapping occurrence of `pat`. An empty `pat` matches before every
   character and at the end, as in CPython.
   */
  function Replace(s: string, pat: string, rep: string): string
    decreases |s|
  {
    if |pat| == 0 then
      if |s| == 0 then rep else rep + [s[0]] + Replace(s[1..], pat, rep)
    else if |s| < |pat| then s
    else if s[..|pat|] == pat then rep + Replace(s[|pat|..], pat, rep)
    else [s[0]] + Replace(s[1..], pat, rep)
  }

  /** `s.count(pat)`: the number of non-overlapping occurrences, left to right. */
  function Count(s: string, pat: string): nat
    decreases |s|
  {
    if |pat| == 0 then |s| + 1
    else if |s| < |pat| then 0
    else if s[..|pat|] == pat then 1 + Count(s[|pat|..], pat)
    else Count(s[1..], pat)
  }

  /** Every replaced occurrence changes the length by `|rep| - |pat|`. */
  lemma {:induction false} ReplaceLength(s: string, pat: string, rep: string)
    ensures |Replace(s, pat, rep)| == |s| + Count(s, pat) * (|rep| - |pat|)
    decreases |s|
  {
    var d := |rep| - |pat|;
    if |pat| == 0 {
      if |s| > 0 {
        var t := s[1..];
        ReplaceLength(t, pat, rep);
        var c := Count(t, pat);
        assert |Replace(s, pat, rep)| == |rep| + 1 + |Replace(t, pat, rep)|;
        assert Count(s, pat) == c + 1;
        MulSucc(c, d);
      }
    } else if |s| < |pat| {
    } else if s[..|pat|] == pat {
      var t := s[|pat|..];
      ReplaceLength(t, pat, rep);
      var c := Count(t, pat);
      assert |Replace(s, pat, rep)| == |rep| + |Replace(t, pat, rep)|;
      assert Count(s, pat) == c + 1;
      MulSucc(c, d);
    } else {
      ReplaceLength(s[1..], pat, rep);
    }
  }

  lemma MulSucc(c: int, d: int)
    ensures (c + 1) * d == c * d + d
  {
  }

  /** `str.count` is zero exactly when the pattern does not occur. */
  lemma {:induction false} CountZeroIffAbsent(s: string, pat: string)
    ensures Count(s, pat) == 0 <==> !IsInfix(pat, s)
    decreases |s|
  {
    if |pat| == 0 {
      PrefixIsInfix(s, pat);
    } else if |s| < |pat| {
    } else if s[..|pat|] == pat {
      PrefixIsInfix(s, pat);
    } else {
      CountZeroIffAbsent(s[1..], pat);
      InfixOfTail(s, pat);
    }
  }

  /** A pattern that starts `s` occurs in `s`. */
  lemma PrefixIsInfix(s: string, pat: string)
    ensures |pat| <= |s| && s[..|pat|] == pat ==> IsInfix(pat, s)
  {
    if |pat| <= |s| && s[..|pat|] == pat {
      assert OccursAt(pat, s, 0);
    }
  }

  /** Away from a non-matching first position, occurrences in `s` are those of its tail. */
  lemma InfixOfTail(s: string, pat: string)
    requires 0 < |pat| <= |s| && s[..|pat|] != pat
    ensures IsInfix(pat, s) <==> IsInfix(pat, s[1..])
  {
    if IsInfix(pat, s[1..]) {
      var i :| 0 <= i && OccursAt(pat, s[1..], i);
      assert s[i + 1..i + 1 + |pat|] == s[1..][i..i + |pat|];
      assert OccursAt(pat, s, i + 1);
    }
    if IsInfix(pat, s) {
      var i :| 0 <= i && OccursAt(pat, s, i);
      assert i != 0;
      assert 1 <= i && i + |pat| <= |s|;
      assert s[1..][i - 1..i - 1 + |pat|] == s[i..i + |pat|];
      assert OccursAt(pat, s[1..], i - 1);
    }
  }

  /** A string in which the pattern does not occur is left unchanged. */
  lemma {:induction false} ReplaceAbsent(s: string, pat: string, rep: string)
    requires !IsInfix(pat, s)
    ensures Replace(s, pat, rep) == s
    decreases |s|
  {
    if |pat| == 0 {
      PrefixIsInfix(s, pat);
      assert false;
    } else if |s| < |pat| {
    } else if s[..|pat|] == pat {
      PrefixIsInfix(s, pat);
      assert false;
    } else {
      InfixOfTail(s, pat);
      ReplaceAbsent(s[1..], pat, rep);
      assert s == [s[0]] + s[1..];
    }
  }

  /** A string that is exactly the (non-empty) pattern becomes the replacement. */
  lemma ReplaceWhole(pat: string, rep: string)
    requires |pat| > 0
    ensures Replace(pat, pat, rep) == rep
  {
    assert pat[|pat|..] == [];
  }

  /** At a position where the pattern does not start, the scan keeps the character and moves on. */
  lemma ReplaceKeepsFirst(s: string, pat: string, rep: string)
    requires 0 < |pat| <= |s| && s[..|pat|] != pat
    ensures Replace(s, pat, rep) == [s[0]] + Replace(s[1..], pat, rep)
  {
  }

  /** At a position where the pattern starts, the scan emits the replacement and skips the match. */
  lemma ReplaceAtMatch(s: string, pat: string, rep: string)
    requires 0 < |pat| <= |s| && s[..|pat|] == pat
    ensures Replace(s, pat, rep) == rep + Replace(s[|pat|..], pat, rep)
  {
  }

  /** A string shorter than a non-empty pattern is left unchanged. */
  lemma ReplaceShort(s: string, pat: string, rep: string)
    requires 0 < |pat| && |s| < |pat|
    ensures Replace(s, pat, rep) == s
  {
  }

  /** A prefix holding no first character of the pattern is copied through unchanged. */
  lemma {:induction false} ReplaceSkip(x: string, y: string, pat: string, rep: string)
    requires |pat| > 0
    requires forall i :: 0 <= i < |x| ==> x[i] != pat[0]
    ensures Replace(x + y, pat, rep) == x + Replace(y, pat, rep)
    decreases |x|
  {
    if |x| > 0 {
      var tail := x[1..];
      forall i | 0 <= i < |tail|
        ensures tail[i] != pat[0]
      {
        assert tail[i] == x[i + 1];
      }
      calc {
        Replace(x + y, pat, rep);
      == { ReplaceSkipFirst(x, y, pat, rep); }
        [x[0]] + Replace(tail + y, pat, rep);
      == { ReplaceSkip(tail, y, pat, rep); }
        [x[0]] + (tail + Replace(y, pat, rep));
      == { assert x == [x[0]] + tail; }
        x + Replace(y, pat, rep);
      }
    } else {
      assert x + y == y;
    }
  }

  /** A first character that cannot start the pattern is kept by the scan. */
  lemma ReplaceSkipFirst(x: string, y: string, pat: string, rep: string)
    requires |pat| > 0 && |x| > 0 && x[0] != pat[0]
    ensures Replace(x + y, pat, rep) == [x[0]] + Replace(x[1..] + y, pat, rep)
  {
    var s := x + y;
    assert s[1..] == x[1..] + y;
    if |s| < |pat| {
      ReplaceShort(s, pat, rep);
      ReplaceShort(s[1..], pat, rep);
      assert s == [x[0]] + s[1..];
    } else {
      assert s[..|pat|][0] == x[0];
      ReplaceKeepsFirst(s, pat, rep);
    }
  }

  /** Python's `sep.join(parts)`. */
  function Join(parts: seq<string>, sep: string): string
  {
    if |parts| == 0 then ""
    else if |parts| == 1 then parts[0]
    else parts[0] + (sep + Join(parts[1..], sep))
  }

  /** A string that starts with the (non-empty) pattern continues after its replacement. */
  lemma ReplaceAtPattern(pat: string, y: string, rep: string)
    requires |pat| > 0
    ensures Replace(pat + y, pat, rep) == rep + Replace(y, pat, rep)
  {
    var s := pat + y;
    assert s[..|pat|] == pat && s[|pat|..] == y;
  }

  /**
   For a two-character pattern `[x, y]` with `x != y` (occurrences cannot
   overlap), replacing it by `[x, z]` rewrites, position by position, every
   `y` that follows an `x` into `z`, and keeps every other character.
   */
  lemma ReplacePairPointwise(s: string, x: char, y: char, z: char)
    requires x != y
    ensures |Replace(s, [x, y], [x, z])| == |s|
    ensures forall i :: 0 <= i < |s| ==>
      Replace(s, [x, y], [x, z])[i] == (if 0 < i && s[i - 1] == x && s[i] == y then z else s[i])
  {
    ReplacePairMap(s, x, y, z);
  }

  /** The pair rewrite as a position-by-position map of `s`. */
  function PairMap(s: string, x: char, y: char, z: char): (r: string)
    ensures |r| == |s|
    ensures forall i :: 0 <= i < |s| ==> r[i] == (if 0 < i && s[i - 1] == x && s[i] == y then z else s[i])
  {
    seq(|s|, i requires 0 <= i < |s| => if 0 < i && s[i - 1] == x && s[i] == y then z else s[i])
  }

  /** Replacing `[x, y]` by `[x, z]` is the pair map, by induction along the scan. */
  lemma {:induction false} ReplacePairMap(s: string, x: char, y: char, z: char)
    requires x != y
    ensures Replace(s, [x, y], [x, z]) == PairMap(s, x, y, z)
    decreases |s|
  {
    var pat, rep := [x, y], [x, z];
    var m := PairMap(s, x, y, z);
    if |s| < 2 {
      ReplaceShort(s, pat, rep);
      assert m == s by {
        forall i | 0 <= i < |s|
          ensures m[i] == s[i]
        {
          assert i == 0;
        }
      }
    } else {
      assert s[..2] == [s[0], s[1]];
      if s[0] == x && s[1] == y {
        var t := s[2..];
        ReplacePairMap(t, x, y, z);
        ReplaceAtMatch(s, pat, rep);
        var rt := PairMap(t, x, y, z);
        forall i | 0 <= i < |s|
          ensures (rep + rt)[i] == m[i]
        {
          PairAfterMatch(s, t, rt, x, y, z, i);
        }
        assert rep + rt == m;
      } else {
        var t := s[1..];
        ReplacePairMap(t, x, y, z);
        ReplaceKeepsFirst(s, pat, rep);
        var rt := PairMap(t, x, y, z);
        forall i | 0 <= i < |s|
          ensures ([s[0]] + rt)[i] == m[i]
        {
          PairAfterKeep(s, t, rt, x, y, z, i);
        }
        assert [s[0]] + rt == m;
      }
    }
  }

  /** One position of the pair rewrite when `s` starts with the pair. */
  lemma PairAfterMatch(s: string, t: string, rt: string, x: char, y: char, z: char, i: nat)
    requires x != y && |s| >= 2 && s[0] == x && s[1] == y && t == s[2..]
    requires |rt| == |t|
    requires forall j {:trigger rt[j]} :: 0 <= j < |t| ==> rt[j] == (if 0 < j && t[j - 1] == x && t[j] == y then z else t[j])
    requires i < |s|
    ensures ([x, z] + rt)[i] == (if 0 < i && s[i - 1] == x && s[i] == y then z else s[i])
  {
    var r := [x, z] + rt;
    if i == 0 {
      assert r[0] == x == s[0];
    } else if i == 1 {
      assert r[1] == z;
    } else {
      var j := i - 2;
      assert r[i] == rt[j];
      assert t[j] == s[i];
      if j > 0 {
        assert t[j - 1] == s[i - 1];
        assert rt[j] == (if t[j - 1] == x && t[j] == y then z else t[j]);
      } else {
        assert rt[j] == t[j];
        assert s[i - 1] == y != x;
      }
    }
  }

  /** One position of the pair rewrite when `s` does not start with the pair. */
  lemma PairAfterKeep(s: string, t: string, rt: string, x: char, y: char, z: char, i: nat)
    requires |s| >= 2 && !(s[0] == x && s[1] == y) && t == s[1..]
    requires |rt| == |t|
    requires forall j {:trigger rt[j]} :: 0 <= j < |t| ==> rt[j] == (if 0 < j && t[j - 1] == x && t[j] == y then z else t[j])
    requires i < |s|
    ensures ([s[0]] + rt)[i] == (if 0 < i && s[i - 1] == x && s[i] == y then z else s[i])
  {
    var r := [s[0]] + rt;
    if i == 0 {
      assert r[0] == s[0];
    } else {
      var j := i - 1;
      assert r[i] == rt[j];
      assert t[j] == s[i];
      if j > 0 {
        assert t[j - 1] == s[i - 1];
        assert rt[j] == (if t[j - 1] == x && t[j] == y then z else t[j]);
      } else {
        assert rt[j] == t[j];
        assert !(s[0] == x && s[1] == y);
      }
    }
  }

  /** Python's normalisation of one slice bound against a length (step 1). */
  function SliceBound(i: int, n: nat): (k: nat)
    ensures k <= n
    ensures 0 <= i <= n ==> k == i
    ensures i < 0 && 0 <= i + n ==> k == n + i
    ensures i + n < 0 ==> k == 0
    ensures i > n ==> k == n
  {
    if i < 0 then (if i + n < 0 then 0 else i + n)
    else if i > n then n
    else i
  }

  /** `s[start:stop]`: negative bounds count from the end, out-of-range bounds clamp. */
  function Slice(s: string, start: int, stop: int): string {
    var a := SliceBound(start, |s|);
    var b := SliceBound(stop, |s|);
    if a < b then s[a..b] else []
  }

  predicate IsDigit(c: char) {
    '0' <= c <= '9'
  }

  /** The numeric value of a decimal digit character. */
  function DigitValue(c: char): int {
    c as int - '0' as int
  }

  /** `str(d)` for a single decimal digit `d`. */
  function DigitChar(d: int): (c: char)
    requires 0 <= d <= 9
    ensures IsDigit(c) && DigitValue(c) == d
  {
    ('0' as int + d) as char
  }

  /** `f"{n:02d}"` for `0 <= n <= 99`: two digits, zero-padded. */
  function Pad2(n: int): (r: string)
    requires 0 <= n <= 99
    ensures |r| == 2 && IsDigit(r[0]) && IsDigit(r[1])
    ensures 10 * DigitValue(r[0]) + DigitValue(r[1]) == n
  {
    [DigitChar(n / 10), DigitChar(n % 10)]
  }
}
