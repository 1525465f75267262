/** `data_gen` (proof_problems_gpt.py): turns the text the model returns
    into a list of problem statements. The text is split on `<p>`, every
    `</p>` is deleted from each piece, each piece is stripped of whitespace
    and empty pieces are dropped. The remote call that produces the text
    (`generate_problems_gpt`) is not part of this model: its result is the
    `response` parameter. */
module ProblemParser {
  import opened Wrappers
  import opened Text
  import Seqs

  const Open: string := "<p>"
  const Close: string := "</p>"

  /** `problem.replace("</p>", "").strip()`. */
  function Clean(piece: string): string
  {
    Strip(Replace(piece, Close, []))
  }

  predicate Kept(problem: string)
  {
    problem != []
  }

  /** The cleaned, non-empty pieces, in order. None is empty or has
      whitespace at either end. */
  function Problems(pieces: seq<string>): (r: seq<string>)
    ensures |r| <= |pieces|
    ensures forall p :: p in r ==> p != [] && Trimmed(p)
  {
    if pieces == [] then []
    else
      var n := |pieces| - 1;
      var p := Clean(pieces[n]);
      Problems(pieces[..n]) + (if Kept(p) then [p] else [])
  }

  /** `Problems` is the list comprehension `data_gen` writes: clean every
      piece, then keep the non-empty ones. */
  lemma {:induction false} ProblemsFilter(pieces: seq<string>)
    ensures Problems(pieces) == Seqs.Filter(Seqs.Map(pieces, Clean), Kept)
  {
    if pieces != [] {
      var n := |pieces| - 1;
      var cleaned := Seqs.Map(pieces, Clean);
      assert cleaned[..n] == Seqs.Map(pieces[..n], Clean);
      ProblemsFilter(pieces[..n]);
    }
  }

  /** The list `data_gen` returns for a response: no element is empty or
      has whitespace at either end, and there are at most as many elements
      as there are `<p>`-separated pieces. */
  function Parse(response: string): (r: seq<string>)
    ensures forall p :: p in r ==> p != [] && Trimmed(p)
    ensures |r| <= Count(response, Open) + 1
  {
    Problems(Split(response, Open))
  }

  /** What a caller of `data_gen` receives: the parsed list, or `None`
      when the remote call raised (`response` is `None`). */
  function Outcome(response: Option<string>): Option<seq<string>>
  {
    match response
    case None => None
    case Some(text) => Some(Parse(text))
  }

  /** The loop of `data_gen`. */
  method DataGen(response: string) returns (problems: seq<string>)
    ensures problems == Parse(response)
  {
    var pieces := Split(response, Open);
    problems := [];
    for i := 0 to |pieces|
      invariant problems == Problems(pieces[..i])
    {
      var cleanProblem := Strip(Replace(pieces[i], Close, []));
      if cleanProblem != [] {
        problems := problems + [cleanProblem];
      }
      assert pieces[..i + 1][..i] == pieces[..i];
    }
    assert pieces[..|pieces|] == pieces;
  }

  /** The result keeps the order of the pieces it comes from: it is the
      cleaned pieces at strictly increasing positions `idx`, and those are
      exactly the pieces that do not clean to the empty string. */
  lemma ParseOrder(response: string) returns (idx: seq<nat>)
    ensures |idx| == |Parse(response)|
    ensures forall k :: 0 <= k < |idx| ==>
      idx[k] < |Split(response, Open)| && Parse(response)[k] == Clean(Split(response, Open)[idx[k]])
    ensures forall k, l :: 0 <= k < l < |idx| ==> idx[k] < idx[l]
    ensures forall j :: 0 <= j < |Split(response, Open)| ==>
      (Clean(Split(response, Open)[j]) != [] <==> j in idx)
  {
    var pieces := Split(response, Open);
    var cleaned := Seqs.Map(pieces, Clean);
    var r := Seqs.Filter(cleaned, Kept);
    ProblemsFilter(pieces);
    idx := Seqs.FilterIndices(cleaned, Kept);
    forall k | 0 <= k < |idx| ensures idx[k] < |pieces| && r[k] == Clean(pieces[idx[k]]) {
      Seqs.MapAt(pieces, Clean, idx[k]);
      assert r[k] == cleaned[idx[k]];
    }
    forall j | 0 <= j < |pieces| ensures Clean(pieces[j]) != [] <==> j in idx {
      Seqs.MapAt(pieces, Clean, j);
      assert Kept(cleaned[j]) <==> j in idx;
    }
  }

  /** A response with no `<p>` yields at most one problem: the whole
      response, cleaned, unless that is empty. */
  lemma ParseWithoutOpen(response: string)
    requires !Occurs(response, Open)
    ensures Parse(response) == if Clean(response) == [] then [] else [Clean(response)]
  {
    SplitAbsent(response, Open);
    assert [response][..0] == [];
  }

  /** The failure placeholder `No response from <model>` is returned as the
      single problem. */
  lemma ParsePlaceholder(model: string)
    requires forall k :: 0 <= k < |model| ==> model[k] != '<'
    requires model != [] && !IsSpace(model[|model| - 1])
    ensures Parse("No response from " + model) == ["No response from " + model]
  {
    var prefix := "No response from ";
    var s := prefix + model;
    assert '<' !in prefix;
    forall k | 0 <= k < |s| ensures s[k] != '<' {
      if k < |prefix| { assert s[k] == prefix[k]; } else { assert s[k] == model[k - |prefix|]; }
    }
    NoFirstChar(s, Open);
    NoFirstChar(s, Close);
    ReplaceAbsent(s, Close, []);
    StripTrimmed(s);
    ParseWithoutOpen(s);
  }

  lemma OpenBorderless()
    ensures Borderless(Open)
  {
    assert Open[..1][0] != Open[2..][0];
    assert Open[..2][0] != Open[1..][0];
  }

  lemma CloseBorderless()
    ensures Borderless(Close)
  {
    assert Close[..1][0] != Close[3..][0];
    assert Close[..2][0] != Close[2..][0];
    assert Close[..3][0] != Close[1..][0];
  }

  /** A statement as the few-shot example shows them: non-empty, without
      whitespace at either end and free of both tags. */
  predicate PlainStatement(s: string)
  {
    s != [] && Trimmed(s) && !Occurs(s, Open) && !Occurs(s, Close)
  }

  /** Every statement of `ss` is plain (stated recursively so that the
      inductive proofs below unfold it one statement at a time). */
  predicate AllPlain(ss: seq<string>)
  {
    ss == [] || (PlainStatement(ss[0]) && AllPlain(ss[1..]))
  }

  lemma {:induction false} AllPlainAt(ss: seq<string>)
    requires forall k :: 0 <= k < |ss| ==> PlainStatement(ss[k])
    ensures AllPlain(ss)
  {
    if ss != [] {
      assert forall k :: 0 <= k < |ss[1..]| ==> ss[1..][k] == ss[k + 1];
      AllPlainAt(ss[1..]);
    }
  }

  /** A response made of `<p>s</p>` for each statement `s`, as in the
      few-shot example given to the model. */
  function Wrap(ss: seq<string>): string
  {
    if ss == [] then [] else Open + ss[0] + Close + Wrap(ss[1..])
  }

  /** Each statement followed by `</p>`: the pieces a wrapped response
      splits into after the leading empty one. */
  function Closed(ss: seq<string>): seq<string>
  {
    if ss == [] then [] else [ss[0] + Close] + Closed(ss[1..])
  }

  /** Appending `</p>` to a `<p>`-free string adds no `<p>`. */
  lemma CloseAddsNoOpen(a: string)
    requires !Occurs(a, Open)
    ensures !Occurs(a + Close, Open)
  {
    var s := a + Close;
    forall i | 0 <= i <= |s| ensures !OccursAt(s, Open, i) {
      if i + 3 <= |a| {
        assert s[i..][..3] == a[i..][..3];
        assert !OccursAt(a, Open, i);
      } else if i == |a| - 2 {
        assert s[i..][2] == '<';
      } else if i == |a| - 1 {
        assert s[i..][1] == '<';
      } else if i == |a| {
        assert s[i..][1] == '/';
      } else if i == |a| + 1 {
        assert s[i..][0] == '/';
      }
    }
  }

  /** A leading `<p>` splits off an empty first piece. */
  lemma SplitOpen(x: string)
    ensures Split(Open + x, Open) == [[]] + Split(x, Open)
  {
    OpenBorderless();
    EmptyFree(Open);
    assert Open + x == [] + Open + x;
    SplitAppend([], Open, x);
  }

  /** A plain statement closed by `</p>` and followed by `<p>` is one piece. */
  lemma SplitClosed(s: string, y: string)
    requires PlainStatement(s)
    ensures Split(s + Close + Open + y, Open) == [s + Close] + Split(y, Open)
  {
    OpenBorderless();
    CloseAddsNoOpen(s);
    SplitAppend(s + Close, Open, y);
  }

  /** The text after a leading `<p>` splits into the closed statements. */
  lemma {:induction false} SplitAfterOpen(ss: seq<string>)
    requires ss != [] && AllPlain(ss)
    ensures Split(ss[0] + Close + Wrap(ss[1..]), Open) == Closed(ss)
  {
    var x := ss[0] + Close + Wrap(ss[1..]);
    if ss[1..] == [] {
      assert x == ss[0] + Close;
      CloseAddsNoOpen(ss[0]);
      SplitAbsent(x, Open);
    } else {
      var tail := ss[1..];
      var y := tail[0] + Close + Wrap(tail[1..]);
      assert x == ss[0] + Close + Open + y;
      SplitClosed(ss[0], y);
      SplitAfterOpen(tail);
    }
  }

  lemma SplitWrap(ss: seq<string>)
    requires AllPlain(ss)
    ensures Split(Wrap(ss), Open) == [[]] + Closed(ss)
  {
    if ss != [] {
      var x := ss[0] + Close + Wrap(ss[1..]);
      assert Wrap(ss) == Open + x;
      SplitOpen(x);
      SplitAfterOpen(ss);
    }
  }

  lemma MapCleanCons(p: string, ps: seq<string>)
    ensures Seqs.Map([p] + ps, Clean) == [Clean(p)] + Seqs.Map(ps, Clean)
  {
    Seqs.MapAppend([p], ps, Clean);
    assert [p][..0] == [];
  }

  /** `data_gen` appends each cleaned piece that is not empty. */
  lemma ProblemsCons(p: string, ps: seq<string>)
    ensures Problems([p] + ps) == (if Clean(p) != [] then [Clean(p)] else []) + Problems(ps)
  {
    ProblemsFilter([p] + ps);
    ProblemsFilter(ps);
    MapCleanCons(p, ps);
    Seqs.FilterAppend([Clean(p)], Seqs.Map(ps, Clean), Kept);
    Seqs.FilterSingle(Clean(p), Kept);
  }

  /** A trimmed statement without `</p>` is what cleaning it followed by
      `</p>` gives back. */
  lemma CleanClosed(s: string)
    requires Trimmed(s) && !Occurs(s, Close)
    ensures Clean(s + Close) == s
  {
    CloseBorderless();
    ReplaceAppend(s, Close, [], []);
    assert s + Close + [] == s + Close;
    assert Replace([], Close, []) == [];
    assert Replace(s + Close, Close, []) == s;
    StripTrimmed(s);
  }

  lemma {:induction false} ProblemsClosed(ss: seq<string>)
    requires AllPlain(ss)
    ensures Problems(Closed(ss)) == ss
  {
    if ss != [] {
      CleanClosed(ss[0]);
      ProblemsCons(ss[0] + Close, Closed(ss[1..]));
      ProblemsClosed(ss[1..]);
    }
  }

  /** A response `<p>s1</p><p>s2</p>...` whose statements are non-empty,
      trimmed and free of both tags parses to exactly those statements. */
  lemma ParseWrap(ss: seq<string>)
    requires forall k :: 0 <= k < |ss| ==> PlainStatement(ss[k])
    ensures Parse(Wrap(ss)) == ss
  {
    AllPlainAt(ss);
    SplitWrap(ss);
    ProblemsCons([], Closed(ss));
    ProblemsClosed(ss);
  }
}
