/** `MathProofDatasetManager._latex_formatter` (main.py): the upstream
    generator writes LaTeX with every backslash doubled; the normaliser
    replaces each pair of backslashes, scanning left to right without
    overlap, by a single backslash. */
module Latex {
  import opened Text
  import Seqs

  const Backslash: char := '\\'
  /** The two-character escape the generator produces. */
  const Doubled: string := [Backslash, Backslash]

  /** `text.replace("\\\\", "\\")`. */
  function Format(text: string): string
  {
    Replace(text, Doubled, [Backslash])
  }

  /** What the generator does to a LaTeX source: every backslash doubled. */
  function Escape(t: string): string
  {
    if t == [] then []
    else (if t[0] == Backslash then Doubled else [t[0]]) + Escape(t[1..])
  }

  function NonBackslash(s: string): string
  {
    Seqs.Filter(s, (c: char) => c != Backslash)
  }

  /** The normaliser undoes the doubling: it is a left inverse of Escape. */
  lemma {:induction false} FormatEscape(t: string)
    ensures Format(Escape(t)) == t
  {
    if t != [] {
      FormatEscape(t[1..]);
      var e := Escape(t);
      if t[0] == Backslash {
        assert e == Doubled + Escape(t[1..]);
        assert e[2..] == Escape(t[1..]);
      } else {
        assert e == [t[0]] + Escape(t[1..]);
        assert e[1..] == Escape(t[1..]);
        assert !StartsWith(e, Doubled);
      }
    }
  }

  /** The result is never longer than the input, and it is exactly as long
      only when the input holds no pair of adjacent backslashes. */
  lemma FormatShorter(s: string)
    ensures |Format(s)| <= |s|
    ensures |Format(s)| == |s| <==> !Occurs(s, Doubled)
  {
    ReplaceLength(s, Doubled, [Backslash]);
    CountZero(s, Doubled);
  }

  /** Text with no pair of adjacent backslashes is returned unchanged, and
      only such text. */
  lemma FormatFixedPoint(s: string)
    ensures Format(s) == s <==> !Occurs(s, Doubled)
  {
    FormatShorter(s);
    if !Occurs(s, Doubled) {
      ReplaceAbsent(s, Doubled, [Backslash]);
    }
  }

  /** Every character other than a backslash survives, in order. */
  lemma {:induction false} FormatKeepsText(s: string)
    ensures NonBackslash(Format(s)) == NonBackslash(s)
    decreases |s|
  {
    var keep := (c: char) => c != Backslash;
    if s != [] {
      if StartsWith(s, Doubled) {
        FormatKeepsText(s[2..]);
        assert s == Doubled + s[2..];
        Seqs.FilterAppend(Doubled, s[2..], keep);
        Seqs.FilterAppend([Backslash], Format(s[2..]), keep);
        assert Seqs.Filter(Doubled, keep) == [] by {
          assert Doubled[..1] == [Backslash];
          assert [Backslash][..0] == [];
        }
        assert Seqs.Filter([Backslash], keep) == [] by {
          assert [Backslash][..0] == [];
        }
      } else {
        FormatKeepsText(s[1..]);
        assert s == [s[0]] + s[1..];
        Seqs.FilterAppend([s[0]], s[1..], keep);
        Seqs.FilterAppend([s[0]], Format(s[1..]), keep);
      }
    }
  }

  /** `\\alpha` (two backslashes) becomes `\alpha`. */
  lemma AlphaExample()
    ensures Format("\\\\alpha") == "\\alpha"
  {
    FormatEscape("\\alpha");
    assert Escape("\\alpha") == "\\\\alpha";
  }

  /** Four backslashes become two, and two become one: the normaliser is
      not idempotent. */
  lemma NotIdempotent()
    ensures Format(Doubled + Doubled) == Doubled
    ensures Format(Format(Doubled + Doubled)) != Format(Doubled + Doubled)
  {
    assert Escape([Backslash]) == Doubled;
    assert Doubled[1..] == [Backslash];
    assert Escape(Doubled) == Doubled + Doubled;
    FormatEscape(Doubled);
    FormatEscape([Backslash]);
  }
}
