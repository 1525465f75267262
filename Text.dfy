/** Python string primitives used by the core, on `string` = `seq<char>`:
    `str.isspace`, `str.strip()`, `str.replace(pat, rep)`, `str.split(sep)`
    and `sep.join(pieces)`, for a non-empty pattern or separator. */
module Text {

  /** Python's `str.isspace` for a single character: the ASCII whitespace
      `\t \n \x0b \x0c \r` and space, the separators `\x1c`..`\x1f`, and the
      non-ASCII characters of Unicode category Zs or bidirectional class
      WS, B or S that Python counts as whitespace. */
  predicate IsSpace(c: char)
  {
    || c == ' '
    || ('\t' <= c <= '\r')
    || ('\U{1c}' <= c <= '\U{1f}')
    || c == '\U{85}' || c == '\U{a0}' || c == '\U{1680}'
    || ('\U{2000}' <= c <= '\U{200a}')
    || c == '\U{2028}' || c == '\U{2029}' || c == '\U{202f}'
    || c == '\U{205f}' || c == '\U{3000}'
  }

  predicate AllSpace(s: string)
  {
    forall k :: 0 <= k < |s| ==> IsSpace(s[k])
  }

  /** A string with no whitespace at either end. */
  predicate Trimmed(s: string)
  {
    s == [] || (!IsSpace(s[0]) && !IsSpace(s[|s| - 1]))
  }

  /** `str.strip()`: whitespace is cut from both ends; the result has no
      whitespace at either end. */
  function Strip(s: string): (r: string)
    ensures Trimmed(r)
    ensures |r| <= |s|
    decreases |s|
  {
    if s == [] then []
    else if IsSpace(s[0]) then Strip(s[1..])
    else if IsSpace(s[|s| - 1]) then Strip(s[..|s| - 1])
    else s
  }

  /** `str.strip()` cuts only whitespace: it is a slice `s[i..j]` of its
      input with nothing but whitespace before `i` and after `j`. */
  lemma {:induction false} StripSlice(s: string) returns (i: nat, j: nat)
    ensures i <= j <= |s| && Strip(s) == s[i..j]
    ensures AllSpace(s[..i]) && AllSpace(s[j..])
    decreases |s|
  {
    if s == [] {
      i, j := 0, 0;
    } else if IsSpace(s[0]) {
      var i', j' := StripSlice(s[1..]);
      i, j := i' + 1, j' + 1;
      assert s[1..][i'..j'] == s[i..j];
      assert s[1..][j'..] == s[j..];
      AllSpaceCons(s, i');
    } else if IsSpace(s[|s| - 1]) {
      var n := |s| - 1;
      i, j := StripSlice(s[..n]);
      assert s[..n][i..j] == s[i..j];
      assert s[..n][..i] == s[..i];
      AllSpaceSnoc(s, j);
    } else {
      i, j := 0, |s|;
      assert s[0..|s|] == s;
    }
  }

  /** A whitespace character in front of a whitespace prefix. */
  lemma AllSpaceCons(s: string, i: nat)
    requires s != [] && IsSpace(s[0]) && i < |s| && AllSpace(s[1..][..i])
    ensures AllSpace(s[..i + 1])
  {
    var prefix := s[..i + 1];
    forall k | 0 <= k < |prefix| ensures IsSpace(prefix[k]) {
      if k > 0 {
        assert prefix[k] == s[1..][..i][k - 1];
      }
    }
  }

  /** A whitespace character after a whitespace suffix. */
  lemma AllSpaceSnoc(s: string, j: nat)
    requires s != [] && IsSpace(s[|s| - 1]) && j < |s| && AllSpace(s[..|s| - 1][j..])
    ensures AllSpace(s[j..])
  {
    var n := |s| - 1;
    forall k | 0 <= k < |s| - j ensures IsSpace(s[j..][k]) {
      if j + k < n {
        assert s[j..][k] == s[..n][j..][k];
      } else {
        assert s[j..][k] == s[n];
      }
    }
  }

  /** `str.strip()` empties exactly the strings made only of whitespace. */
  lemma StripEmpty(s: string)
    ensures Strip(s) == [] <==> AllSpace(s)
  {
    var i, j := StripSlice(s);
    if Strip(s) == [] {
      forall k | 0 <= k < |s| ensures IsSpace(s[k]) {
        if k < i { assert s[k] == s[..i][k]; } else { assert s[k] == s[j..][k - j]; }
      }
    }
  }

  /** `str.strip()` leaves a string with no whitespace at its ends alone. */
  lemma StripTrimmed(s: string)
    requires Trimmed(s)
    ensures Strip(s) == s
  {
  }

  /** `s` begins with `p`. */
  predicate StartsWith(s: string, p: string)
  {
    |p| <= |s| && s[..|p|] == p
  }

  /** `p` occurs somewhere in `s` (Python's `p in s`). */
  predicate Occurs(s: string, p: string)
  {
    exists i :: 0 <= i <= |s| && OccursAt(s, p, i)
  }

  /** `p` occurs in `s` starting at position `i`. */
  predicate OccursAt(s: string, p: string, i: int)
  {
    0 <= i <= |s| && StartsWith(s[i..], p)
  }

  /** `s.count(pat)`: the number of occurrences found scanning left to
      right without overlap. */
  function Count(s: string, pat: string): nat
    requires pat != []
    decreases |s|
  {
    if s == [] then 0
    else if StartsWith(s, pat) then 1 + Count(s[|pat|..], pat)
    else Count(s[1..], pat)
  }

  /** `s.replace(pat, rep)`: every occurrence found scanning left to right
      without overlap is replaced by `rep`. */
  function Replace(s: string, pat: string, rep: string): string
    requires pat != []
    decreases |s|
  {
    if s == [] then []
    else if StartsWith(s, pat) then rep + Replace(s[|pat|..], pat, rep)
    else [s[0]] + Replace(s[1..], pat, rep)
  }

  /** `sep.join(ps)`. */
  function Join(ps: seq<string>, sep: string): string
  {
    if |ps| == 0 then []
    else if |ps| == 1 then ps[0]
    else ps[0] + sep + Join(ps[1..], sep)
  }

  /** `s.split(sep)`: one piece more than there are occurrences of `sep`,
      and joining the pieces with `sep` gives back `s`. */
  function Split(s: string, sep: string): (r: seq<string>)
    requires sep != []
    ensures |r| == Count(s, sep) + 1
    ensures Join(r, sep) == s
    decreases |s|
  {
    if s == [] then [[]]
    else if StartsWith(s, sep) then
      var rest := Split(s[|sep|..], sep);
      assert s == [] + sep + s[|sep|..];
      [[]] + rest
    else
      var rest := Split(s[1..], sep);
      JoinExtendHead(s[0], rest, sep);
      assert s == [s[0]] + s[1..];
      [[s[0]] + rest[0]] + rest[1..]
  }

  /** Putting a character in front of the first piece puts it in front of
      the joined string. */
  lemma JoinExtendHead(c: char, ps: seq<string>, sep: string)
    requires ps != []
    ensures Join([[c] + ps[0]] + ps[1..], sep) == [c] + Join(ps, sep)
  {
    var qs := [[c] + ps[0]] + ps[1..];
    if |ps| > 1 {
      assert qs[1..] == ps[1..];
    }
  }

  /** No occurrence means nothing is counted. */
  lemma {:induction false} CountZero(s: string, pat: string)
    requires pat != []
    ensures Count(s, pat) == 0 <==> !Occurs(s, pat)
    decreases |s|
  {
    if s == [] {
      EmptyFree(pat);
    } else if StartsWith(s, pat) {
      assert s[0..] == s;
      assert OccursAt(s, pat, 0);
    } else {
      CountZero(s[1..], pat);
      if Occurs(s[1..], pat) {
        OccursTail(s, pat);
      } else {
        NotOccursCons(s, pat);
      }
    }
  }

  /** Replacing a pattern that does not occur changes nothing. */
  lemma {:induction false} ReplaceAbsent(s: string, pat: string, rep: string)
    requires pat != [] && !Occurs(s, pat)
    ensures Replace(s, pat, rep) == s
    decreases |s|
  {
    if s != [] {
      assert !StartsWith(s, pat) by { assert s[0..] == s; assert !OccursAt(s, pat, 0); }
      NotOccursTail(s, pat);
      ReplaceAbsent(s[1..], pat, rep);
      assert s == [s[0]] + s[1..];
    }
  }

  /** No piece of `s.split(sep)` contains `sep`. */
  lemma {:induction false} SplitPiecesFree(s: string, sep: string)
    requires sep != []
    ensures forall k :: 0 <= k < |Split(s, sep)| ==> !Occurs(Split(s, sep)[k], sep)
    decreases |s|
  {
    var r := Split(s, sep);
    if s == [] {
      EmptyFree(sep);
    } else if StartsWith(s, sep) {
      SplitPiecesFree(s[|sep|..], sep);
      EmptyFree(sep);
      forall k | 1 <= k < |r| ensures !Occurs(r[k], sep) {
        assert r[k] == Split(s[|sep|..], sep)[k - 1];
      }
    } else {
      var rest := Split(s[1..], sep);
      SplitPiecesFree(s[1..], sep);
      var p := [s[0]] + rest[0];
      PieceIsPrefix(s[1..], sep);
      forall i | 0 <= i <= |p| ensures !OccursAt(p, sep, i) {
        if i == 0 {
          // the piece and `s` agree up to the end of the piece
          assert p == s[..|p|];
          if |sep| <= |p| { assert s[..|sep|] == p[..|sep|]; }
        } else {
          assert p[i..] == rest[0][i - 1..];
          assert !OccursAt(rest[0], sep, i - 1);
        }
      }
      forall k | 1 <= k < |r| ensures !Occurs(r[k], sep) {
        assert r[k] == rest[k];
      }
    }
  }

  /** The first piece of a split is a prefix of the string. */
  lemma {:induction false} PieceIsPrefix(s: string, sep: string)
    requires sep != []
    ensures |Split(s, sep)[0]| <= |s| && Split(s, sep)[0] == s[..|Split(s, sep)[0]|]
    decreases |s|
  {
    if s != [] && !StartsWith(s, sep) {
      PieceIsPrefix(s[1..], sep);
    }
  }

  lemma EmptyFree(pat: string)
    requires pat != []
    ensures !Occurs([], pat)
  {
  }

  /** An occurrence in the tail is an occurrence in the whole string. */
  lemma OccursTail(s: string, pat: string)
    requires s != [] && Occurs(s[1..], pat)
    ensures Occurs(s, pat)
  {
    var i :| 0 <= i <= |s[1..]| && OccursAt(s[1..], pat, i);
    assert s[1..][i..] == s[i + 1..];
    assert OccursAt(s, pat, i + 1);
  }

  /** A string free of `pat` has a tail free of `pat`. */
  lemma NotOccursTail(s: string, pat: string)
    requires s != [] && !Occurs(s, pat)
    ensures !Occurs(s[1..], pat)
  {
    forall i | 0 <= i <= |s[1..]| ensures !OccursAt(s[1..], pat, i) {
      assert s[1..][i..] == s[i + 1..];
      assert !OccursAt(s, pat, i + 1);
    }
  }

  /** A string that does not start with `pat` and whose tail is free of
      `pat` is itself free of `pat`. */
  lemma NotOccursCons(s: string, pat: string)
    requires s != [] && !StartsWith(s, pat) && !Occurs(s[1..], pat)
    ensures !Occurs(s, pat)
  {
    forall i | 0 <= i <= |s| ensures !OccursAt(s, pat, i) {
      if i == 0 { assert s[0..] == s; } else {
        assert s[i..] == s[1..][i - 1..];
        assert !OccursAt(s[1..], pat, i - 1);
      }
    }
  }

  /** No proper non-empty prefix of `p` is also a suffix of it, so two
      occurrences of `p` can never overlap. */
  predicate Borderless(p: string)
  {
    forall k :: 0 < k < |p| ==> p[..k] != p[|p| - k..]
  }

  /** When `a` is free of a borderless `p`, the leftmost occurrence of `p`
      in `a + p + b` is the one right after `a`; in particular none starts
      at position 0 unless `a` is empty. */
  lemma NoStartBefore(a: string, p: string, b: string)
    requires p != [] && Borderless(p) && a != [] && !Occurs(a, p)
    ensures !StartsWith(a + p + b, p)
  {
    var s := a + p + b;
    if |a| >= |p| {
      assert a[0..] == a;
      assert !OccursAt(a, p, 0);
      assert s[..|p|] == a[..|p|];
    } else {
      var k := |p| - |a|;
      assert s[..|p|][|a|..] == p[..k];
      assert p[..k] != p[|p| - k..];
    }
  }

  /** Splitting on a borderless separator cuts right after a separator-free
      prefix. */
  lemma {:induction false} SplitAppend(a: string, p: string, b: string)
    requires p != [] && Borderless(p) && !Occurs(a, p)
    ensures Split(a + p + b, p) == [a] + Split(b, p)
    decreases |a|
  {
    var s := a + p + b;
    if a == [] {
      assert s == p + b && s[..|p|] == p && s[|p|..] == b;
    } else {
      NoStartBefore(a, p, b);
      NotOccursTail(a, p);
      assert s[1..] == a[1..] + p + b;
      SplitAppend(a[1..], p, b);
      var rest := Split(s[1..], p);
      assert rest == [a[1..]] + Split(b, p);
      assert Split(s, p) == [[s[0]] + rest[0]] + rest[1..];
      assert [s[0]] + a[1..] == a;
    }
  }

  /** Replacing a borderless pattern leaves a pattern-free prefix alone and
      replaces the occurrence right after it. */
  lemma {:induction false} ReplaceAppend(a: string, p: string, rep: string, b: string)
    requires p != [] && Borderless(p) && !Occurs(a, p)
    ensures Replace(a + p + b, p, rep) == a + rep + Replace(b, p, rep)
    decreases |a|
  {
    var s := a + p + b;
    if a == [] {
      assert s == p + b && s[..|p|] == p && s[|p|..] == b;
    } else {
      NoStartBefore(a, p, b);
      NotOccursTail(a, p);
      ReplaceAppend(a[1..], p, rep, b);
      assert s[1..] == a[1..] + p + b;
      assert [s[0]] + a[1..] == a;
    }
  }

  /** A string free of the separator splits into itself alone. */
  lemma SplitAbsent(s: string, sep: string)
    requires sep != [] && !Occurs(s, sep)
    ensures Split(s, sep) == [s]
  {
    CountZero(s, sep);
  }

  /** A string without the first character of `p` is free of `p`. */
  lemma NoFirstChar(s: string, p: string)
    requires p != [] && forall k :: 0 <= k < |s| ==> s[k] != p[0]
    ensures !Occurs(s, p)
  {
    forall i | 0 <= i <= |s| ensures !OccursAt(s, p, i) {
      if i < |s| { assert s[i..][0] == s[i]; }
    }
  }

  /** The length changes by `|rep| - |pat|` per replaced occurrence. */
  lemma {:induction false} ReplaceLength(s: string, pat: string, rep: string)
    requires pat != []
    ensures |Replace(s, pat, rep)| == |s| + Count(s, pat) * (|rep| - |pat|)
    decreases |s|
  {
    if s != [] {
      var d := |rep| - |pat|;
      if StartsWith(s, pat) {
        var t := s[|pat|..];
        ReplaceLength(t, pat, rep);
        assert (1 + Count(t, pat)) * d == d + Count(t, pat) * d;
      } else {
        ReplaceLength(s[1..], pat, rep);
      }
    }
  }
}
