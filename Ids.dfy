/** Record ids are decimal strings. New ids are written with Python's
    `str(int)` (an f-string of an int) and read back with `int(str)`. */
module Ids {
  import opened Wrappers
  import opened Text

  predicate IsDigit(c: char)
  {
    '0' <= c <= '9'
  }

  function DigitChar(d: nat): (c: char)
    requires d < 10
    ensures IsDigit(c)
  {
    "0123456789"[d]
  }

  function DigitValue(c: char): nat
    requires IsDigit(c)
  {
    (c as int - '0' as int) as nat
  }

  /** `str(n)` for `n >= 0`: decimal digits, most significant first, with no
      leading zero. */
  function ShowNat(n: nat): (r: string)
    ensures r != [] && forall k :: 0 <= k < |r| ==> IsDigit(r[k])
    ensures |r| > 1 ==> r[0] != '0'
    decreases n
  {
    if n < 10 then [DigitChar(n)] else ShowNat(n / 10) + [DigitChar(n % 10)]
  }

  /** `str(i)`: a minus sign in front of the digits of a negative number. */
  function ShowInt(i: int): string
  {
    if i < 0 then "-" + ShowNat(-i) else ShowNat(i)
  }

  /** The digit part `int(str)` accepts: digits, where single underscores
      may separate two digits. It ends in a digit, and what precedes that
      digit is nothing, or again digit groups, possibly followed by one
      underscore. */
  predicate DigitGroups(s: string)
    decreases |s|
  {
    && s != [] && IsDigit(s[|s| - 1])
    && var front := s[..|s| - 1];
       || front == []
       || DigitGroups(front)
       || (front[|front| - 1] == '_' && DigitGroups(front[..|front| - 1]))
  }

  /** The number the digits of `s` spell; underscores are skipped. */
  function DigitsValue(s: string): nat
  {
    if s == [] then 0
    else
      var n := |s| - 1;
      if IsDigit(s[n]) then DigitsValue(s[..n]) * 10 + DigitValue(s[n]) else DigitsValue(s[..n])
  }

  /** The whitespace `int()` skips around its argument: the characters
      `str.isspace` accepts, except the ASCII separators `\x1c`..`\x1f`.
      Non-ASCII whitespace is first turned into a space, but the ASCII
      characters are kept, and only `\t`..`\r` and space are skipped. */
  predicate IntSpace(c: char)
  {
    || c == ' '
    || ('\t' <= c <= '\r')
    || c == '\U{85}' || c == '\U{a0}' || c == '\U{1680}'
    || ('\U{2000}' <= c <= '\U{200a}')
    || c == '\U{2028}' || c == '\U{2029}' || c == '\U{202f}'
    || c == '\U{205f}' || c == '\U{3000}'
  }

  /** That set is `str.isspace` without the separators `\x1c`..`\x1f`. */
  lemma IntSpaceIsSpace(c: char)
    ensures IntSpace(c) <==> IsSpace(c) && !('\U{1c}' <= c <= '\U{1f}')
  {
  }

  predicate AllIntSpace(s: string)
  {
    forall k :: 0 <= k < |s| ==> IntSpace(s[k])
  }

  /** `int(s)` for base 10: the whitespace `IntSpace` accepts is skipped at
      either end, then one optional sign and digit groups; anything else
      raises, which is `None` here. */
  function ParseInt(s: string): Option<int>
    decreases |s|
  {
    if s != [] && IntSpace(s[0]) then ParseInt(s[1..])
    else if s != [] && IntSpace(s[|s| - 1]) then ParseInt(s[..|s| - 1])
    else ParseStripped(s)
  }

  /** The text `int()` goes on to read once it has skipped the whitespace
      at both ends; it starts and ends with something else. */
  function IntStrip(s: string): (r: string)
    ensures r == [] || (!IntSpace(r[0]) && !IntSpace(r[|r| - 1]))
    decreases |s|
  {
    if s == [] then []
    else if IntSpace(s[0]) then IntStrip(s[1..])
    else if IntSpace(s[|s| - 1]) then IntStrip(s[..|s| - 1])
    else s
  }

  /** `int` reads what is left once that whitespace is cut. */
  lemma {:induction false} ParseIntStrip(s: string)
    ensures ParseInt(s) == ParseStripped(IntStrip(s))
    decreases |s|
  {
    if s != [] && IntSpace(s[0]) {
      ParseIntStrip(s[1..]);
    } else if s != [] && IntSpace(s[|s| - 1]) {
      ParseIntStrip(s[..|s| - 1]);
    }
  }

  /** Only whitespace `int` skips is cut: what it reads is a slice `s[i..j]`
      with nothing but such whitespace before `i` and after `j`. */
  lemma {:induction false} IntStripSlice(s: string) returns (i: nat, j: nat)
    ensures i <= j <= |s| && IntStrip(s) == s[i..j]
    ensures AllIntSpace(s[..i]) && AllIntSpace(s[j..])
    decreases |s|
  {
    if s == [] {
      i, j := 0, 0;
    } else if IntSpace(s[0]) {
      var i', j' := IntStripSlice(s[1..]);
      i, j := i' + 1, j' + 1;
      assert s[1..][i'..j'] == s[i..j];
      assert s[1..][j'..] == s[j..];
      IntSpaceCons(s, i');
    } else if IntSpace(s[|s| - 1]) {
      var n := |s| - 1;
      i, j := IntStripSlice(s[..n]);
      assert s[..n][i..j] == s[i..j];
      assert s[..n][..i] == s[..i];
      IntSpaceSnoc(s, j);
    } else {
      i, j := 0, |s|;
      assert s[0..|s|] == s;
    }
  }

  lemma IntSpaceCons(s: string, i: nat)
    requires s != [] && IntSpace(s[0]) && i < |s| && AllIntSpace(s[1..][..i])
    ensures AllIntSpace(s[..i + 1])
  {
    var prefix := s[..i + 1];
    forall k | 0 <= k < |prefix| ensures IntSpace(prefix[k]) {
      if k > 0 {
        assert prefix[k] == s[1..][..i][k - 1];
      }
    }
  }

  lemma IntSpaceSnoc(s: string, j: nat)
    requires s != [] && IntSpace(s[|s| - 1]) && j < |s| && AllIntSpace(s[..|s| - 1][j..])
    ensures AllIntSpace(s[j..])
  {
    var n := |s| - 1;
    forall k | 0 <= k < |s| - j ensures IntSpace(s[j..][k]) {
      if j + k < n {
        assert s[j..][k] == s[..n][j..][k];
      } else {
        assert s[j..][k] == s[n];
      }
    }
  }

  /** `str.strip()` cuts the separator `\x1c` but `int` does not skip it:
      `int("\x1c7")` raises although the stripped text reads as 7. */
  lemma ParseSeparator()
    ensures Strip("\U{1c}7") == "7" && ParseStripped("7") == Some(7)
    ensures ParseInt("\U{1c}7") == None
  {
    assert "\U{1c}7"[1..] == "7";
    assert "7"[..0] == [];
    assert !DigitGroups("\U{1c}7") by { assert "\U{1c}7"[..1] == "\U{1c}"; }
  }

  /** A sign and digit groups, with nothing around them. */
  function ParseStripped(t: string): Option<int>
  {
    if t != [] && (t[0] == '+' || t[0] == '-') then
      var body := t[1..];
      if DigitGroups(body) then
        var v: int := DigitsValue(body);
        Some(if t[0] == '-' then -v else v)
      else None
    else if DigitGroups(t) then Some(DigitsValue(t))
    else None
  }

  lemma {:induction false} ShowNatDigits(n: nat)
    ensures DigitGroups(ShowNat(n))
    ensures DigitsValue(ShowNat(n)) == n
    decreases n
  {
    var r := ShowNat(n);
    if n >= 10 {
      var front := ShowNat(n / 10);
      ShowNatDigits(n / 10);
      var last := DigitChar(n % 10);
      assert r == front + [last];
      assert r[..|r| - 1] == front;
      assert DigitValue(last) == n % 10 by {
        assert "0123456789"[n % 10] as int - '0' as int == n % 10;
      }
    } else {
      assert "0123456789"[n] as int - '0' as int == n;
      assert r[..0] == [];
    }
  }

  /** The digits of a number carry no sign and no whitespace and read back
      as that number. */
  lemma ShowNatReads(n: nat)
    ensures Trimmed(ShowNat(n))
    ensures ParseStripped(ShowNat(n)) == Some(n)
    ensures ParseStripped("-" + ShowNat(n)) == Some(-(n as int))
  {
    var d := ShowNat(n);
    ShowNatDigits(n);
    assert IsDigit(d[0]) && IsDigit(d[|d| - 1]);
    DigitsRead(d);
  }

  /** Digit groups read as their value, with or without a minus sign. */
  lemma DigitsRead(d: string)
    requires DigitGroups(d) && IsDigit(d[0])
    ensures ParseStripped(d) == Some(DigitsValue(d))
    ensures ParseStripped("-" + d) == Some(-(DigitsValue(d) as int))
  {
    var s := "-" + d;
    assert s[0] == '-' && s[1..] == d;
  }

  /** Reading back an id written by `str` gives the same number: the pair
      is a round trip, so distinct numbers give distinct ids. */
  lemma ParseShow(i: int)
    ensures ParseInt(ShowInt(i)) == Some(i)
  {
    if i < 0 {
      ParseShowNat(-i);
    } else {
      ParseShowNat(i);
    }
  }

  /** The digits of `n`, with or without a minus sign, read back. */
  lemma ParseShowNat(n: nat)
    ensures ParseInt(ShowNat(n)) == Some(n)
    ensures ParseInt("-" + ShowNat(n)) == Some(-(n as int))
  {
    var d := ShowNat(n);
    ShowNatReads(n);
    ParseUnpadded(d);
    var s := "-" + d;
    assert s[0] == '-' && s[|s| - 1] == d[|d| - 1];
    ParseUnpadded(s);
  }

  /** With nothing to skip at either end, `int` reads the text as it is. */
  lemma ParseUnpadded(s: string)
    requires s != [] && !IntSpace(s[0]) && !IntSpace(s[|s| - 1])
    ensures ParseInt(s) == ParseStripped(s)
  {
  }

  lemma ShowIntInjective(i: int, j: int)
    requires ShowInt(i) == ShowInt(j)
    ensures i == j
  {
    ParseShow(i);
    ParseShow(j);
  }

  /** `int` ignores surrounding whitespace and leading zeros. */
  lemma ParseLenient()
    ensures ParseInt(" 7\n") == Some(7)
    ensures ParseInt("007") == Some(7)
  {
    assert " 7\n"[1..] == "7\n";
    assert "7\n"[..1] == "7";
    assert DigitsValue("7") == 7 by { assert "7"[..0] == []; }
    assert DigitGroups("007") by {
      assert "007"[..2] == "00";
      assert "00"[..1] == "0";
      assert "0"[..0] == [];
    }
    assert DigitsValue("007") == 7 by {
      assert "007"[..2] == "00";
      assert "00"[..1] == "0";
      assert "0"[..0] == [];
    }
  }

  /** `int` takes a sign and single underscores between digits. */
  lemma ParseSigned()
    ensures ParseInt("-1_0") == Some(-10)
  {
    assert "-1_0"[1..] == "1_0";
    assert DigitsValue("1_0") == 10 by {
      assert "1_0"[..2] == "1_";
      assert "1_"[..1] == "1";
      assert "1"[..0] == [];
    }
  }

  /** `int` raises on a doubled underscore, a letter or an empty string. */
  lemma ParseRejects()
    ensures ParseInt("1__0") == None
    ensures ParseInt("x1") == None
    ensures ParseInt("") == None
  {
    assert !DigitGroups("1__0") by { assert "1__0"[1] == '_' && "1__0"[2] == '_'; }
    assert !DigitGroups("x1") by { assert "x1"[0] == 'x'; }
  }
}
