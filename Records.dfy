/** The records the dataset stores and the list computations both copies of
    `MathProofDatasetManager` (dataset_manager.py and main.py) perform on
    them: the largest id, the numbering of generated records, and the
    filter-then-renumber step of `remove_proof`. */
module Records {
  import opened Wrappers
  import opened Ids
  import Latex
  import Seqs

  /** One `{"id", "statement", "proof"}` entry of a topic. */
  datatype Record = Record(id: string, statement: string, proof: string)

  /** What one `json.dump` of the dataset writes: the topics in dictionary
      order and the records of each. */
  datatype Snapshot = Snapshot(topics: seq<string>, records: map<string, seq<Record>>)

  /** `order` lists the keys of `m` once each: the insertion order of a
      Python dictionary. */
  ghost predicate KeysInOrder<V>(m: map<string, V>, order: seq<string>)
  {
    && (forall t :: t in m <==> t in order)
    && (forall i, j :: 0 <= i < j < |order| ==> order[i] != order[j])
  }

  /** Setting a key keeps the order valid: a new key goes last. */
  lemma KeysInOrderSet<V>(m: map<string, V>, order: seq<string>, key: string, v: V)
    requires KeysInOrder(m, order)
    ensures KeysInOrder(m[key := v], if key in m then order else order + [key])
  {
    var order' := if key in m then order else order + [key];
    forall i, j | 0 <= i < j < |order'| ensures order'[i] != order'[j] {
      if j == |order| {
        assert order'[i] == order[i] && order[i] in m;
      }
    }
  }

  /** Setting a key twice is setting it to the second value. */
  lemma SetTwice<V>(m: map<string, V>, key: string, a: V, b: V)
    ensures m[key := a][key := b] == m[key := b]
  {
  }

  /** Every id of `rs` is accepted by `int`. */
  predicate AllIds(rs: seq<Record>)
  {
    forall k {:trigger ParseInt(rs[k].id)} :: 0 <= k < |rs| ==> ParseInt(rs[k].id).Some?
  }

  /** The ids are "1", "2", ... in list order. */
  predicate Contiguous(rs: seq<Record>)
  {
    forall k :: 0 <= k < |rs| ==> rs[k].id == ShowInt(k + 1)
  }

  /** `int(p["id"])` for each record in order; `None` when one of them
      raises. */
  function IdValues(rs: seq<Record>): Option<seq<int>>
  {
    if rs == [] then Some([])
    else
      var n := |rs| - 1;
      match IdValues(rs[..n])
      case None => None
      case Some(vs) =>
        match ParseInt(rs[n].id)
        case None => None
        case Some(v) => Some(vs + [v])
  }

  /** The values are read exactly when every id is an integer, and then
      the k-th value is the k-th id read as an integer. */
  lemma {:induction false} IdValuesSpec(rs: seq<Record>)
    ensures IdValues(rs).Some? <==> AllIds(rs)
    ensures IdValues(rs).Some? ==>
      && |IdValues(rs).value| == |rs|
      && forall k :: 0 <= k < |rs| ==> ParseInt(rs[k].id) == Some(IdValues(rs).value[k])
  {
    if rs != [] {
      var n := |rs| - 1;
      var front := rs[..n];
      IdValuesSpec(front);
      assert forall k :: 0 <= k < n ==> front[k] == rs[k];
      if AllIds(rs) {
        assert AllIds(front);
        var vs := IdValues(front).value;
        var v := ParseInt(rs[n].id).value;
        assert IdValues(rs) == Some(vs + [v]);
        forall k | 0 <= k < |rs| ensures ParseInt(rs[k].id) == Some((vs + [v])[k]) {
          if k < n { assert ParseInt(front[k].id) == Some(vs[k]); }
        }
      } else {
        var k :| 0 <= k < |rs| && ParseInt(rs[k].id).None?;
        if k < n { assert !AllIds(front); }
      }
    }
  }

  /** Python's `max` of a non-empty list of integers. */
  function Max(xs: seq<int>): int
    requires xs != []
  {
    var n := |xs| - 1;
    if n == 0 then xs[0]
    else
      var m := Max(xs[..n]);
      if xs[n] > m then xs[n] else m
  }

  /** The maximum bounds every element and is one of them. */
  lemma {:induction false} MaxSpec(xs: seq<int>) returns (at: nat)
    requires xs != []
    ensures forall k :: 0 <= k < |xs| ==> xs[k] <= Max(xs)
    ensures at < |xs| && xs[at] == Max(xs)
  {
    var n := |xs| - 1;
    if n == 0 {
      at := 0;
    } else {
      var front := xs[..n];
      at := MaxSpec(front);
      assert forall k :: 0 <= k < n ==> front[k] == xs[k];
      if xs[n] > Max(front) {
        at := n;
      }
    }
  }

  /** The `last_id` of `generate_proofs`: 0 for an empty topic, otherwise
      `max(int(p["id"]) for p in rs)`; `None` when an `int` raises. */
  function LastId(rs: seq<Record>): Option<int>
  {
    match IdValues(rs)
    case None => None
    case Some(vs) => Some(if vs == [] then 0 else Max(vs))
  }

  /** `last_id` fails exactly when some id is not an integer; otherwise it
      is at least every id and, unless the topic is empty, one of them. */
  lemma LastIdSpec(rs: seq<Record>)
    ensures LastId(rs).Some? <==> AllIds(rs)
    ensures LastId(rs).Some? ==>
      forall k {:trigger ParseInt(rs[k].id)} :: 0 <= k < |rs| ==> ParseInt(rs[k].id).Some? && ParseInt(rs[k].id).value <= LastId(rs).value
    ensures LastId(rs).Some? && rs != [] ==>
      exists k :: 0 <= k < |rs| && ParseInt(rs[k].id) == LastId(rs)
    ensures rs == [] ==> LastId(rs) == Some(0)
  {
    IdValuesSpec(rs);
    if LastId(rs).Some? && rs != [] {
      var at := MaxSpec(IdValues(rs).value);
      assert ParseInt(rs[at].id) == LastId(rs);
    }
  }

  /** `[1, 2, ..., n]`. */
  function UpTo(n: nat): (r: seq<int>)
    ensures |r| == n
  {
    if n == 0 then [] else UpTo(n - 1) + [n]
  }

  /** A topic numbered 1..n reads back as the ids 1..n. */
  lemma {:induction false} ContiguousValues(rs: seq<Record>)
    requires Contiguous(rs)
    ensures IdValues(rs) == Some(UpTo(|rs|))
  {
    if rs != [] {
      var n := |rs| - 1;
      assert Contiguous(rs[..n]) by {
        forall k | 0 <= k < n ensures rs[..n][k].id == ShowInt(k + 1) {
          assert rs[..n][k] == rs[k];
        }
      }
      ContiguousValues(rs[..n]);
      ParseShow(n + 1);
    }
  }

  lemma {:induction false} MaxUpTo(n: nat)
    requires n > 0
    ensures Max(UpTo(n)) == n
  {
    if n > 1 {
      assert UpTo(n)[..n - 1] == UpTo(n - 1);
      MaxUpTo(n - 1);
    }
  }

  /** On a topic numbered 1..n the largest id is n, so `generate_proofs`
      continues at n + 1, the id a manual add uses. */
  lemma ContiguousLast(rs: seq<Record>)
    requires Contiguous(rs)
    ensures LastId(rs) == Some(|rs|)
  {
    ContiguousValues(rs);
    if rs != [] {
      MaxUpTo(|rs|);
    }
  }

  /** A statement or proof as it is stored: main.py passes both through the
      LaTeX normaliser, dataset_manager.py stores them as they are. */
  function Stored(latex: bool, text: string): string
  {
    if latex then Latex.Format(text) else text
  }

  /** The records the loop of `generate_proofs` builds from `problems`,
      numbered after `last`, each with the proof `prove` returns for it;
      `None` when a proof request fails (the loop then raises). */
  function Numbered(topic: string, last: int, problems: seq<string>,
                    prove: (string, string) -> Option<string>, latex: bool): Option<seq<Record>>
  {
    if problems == [] then Some([])
    else
      var n := |problems| - 1;
      match Numbered(topic, last, problems[..n], prove, latex)
      case None => None
      case Some(rs) =>
        match prove(topic, problems[n])
        case None => None
        case Some(proof) => Some(rs + [Record(ShowInt(last + n + 1), Stored(latex, problems[n]), Stored(latex, proof))])
  }

  /** The loop of `generate_proofs`: one proof request per statement, in
      order; `None` as soon as a request raises. */
  method NumberProblems(topic: string, last: int, problems: seq<string>,
                        prove: (string, string) -> Option<string>, latex: bool)
    returns (numbered: Option<seq<Record>>)
    ensures numbered == Numbered(topic, last, problems, prove, latex)
  {
    var newProblems := [];
    for i := 0 to |problems|
      invariant Numbered(topic, last, problems[..i], prove, latex) == Some(newProblems)
    {
      var proof := prove(topic, problems[i]);
      NumberedSnoc(topic, last, problems, i, prove, latex);
      if proof.None? {
        NumberedFails(topic, last, problems[..i + 1], problems[i + 1..], prove, latex);
        assert problems[..i + 1] + problems[i + 1..] == problems;
        return None;
      }
      var unit := Record(ShowInt(last + i + 1), Stored(latex, problems[i]), Stored(latex, proof.value));
      newProblems := newProblems + [unit];
    }
    assert problems[..|problems|] == problems;
    numbered := Some(newProblems);
  }

  /** One step of the loop: numbering one more problem fails if its proof
      request fails, and otherwise appends its record. */
  lemma NumberedSnoc(topic: string, last: int, problems: seq<string>, i: nat,
                     prove: (string, string) -> Option<string>, latex: bool)
    requires i < |problems|
    ensures Numbered(topic, last, problems[..i + 1], prove, latex) ==
      match Numbered(topic, last, problems[..i], prove, latex)
      case None => None
      case Some(rs) =>
        match prove(topic, problems[i])
        case None => None
        case Some(proof) => Some(rs + [Record(ShowInt(last + i + 1), Stored(latex, problems[i]), Stored(latex, proof))])
  {
    assert problems[..i + 1][..i] == problems[..i];
  }

  /** Numbering succeeds exactly when every proof request does; then the
      k-th record holds the k-th problem, its proof and the id last + k + 1. */
  lemma NumberedSpec(topic: string, last: int, problems: seq<string>,
                     prove: (string, string) -> Option<string>, latex: bool)
    ensures Numbered(topic, last, problems, prove, latex).Some? <==>
      forall k :: 0 <= k < |problems| ==> prove(topic, problems[k]).Some?
    ensures Numbered(topic, last, problems, prove, latex).Some? ==>
      var rs := Numbered(topic, last, problems, prove, latex).value;
      && |rs| == |problems|
      && forall k :: 0 <= k < |problems| ==>
           rs[k] == Record(ShowInt(last + k + 1), Stored(latex, problems[k]),
                           Stored(latex, prove(topic, problems[k]).value))
  {
    NumberedSucceeds(topic, last, problems, prove, latex);
    if Numbered(topic, last, problems, prove, latex).Some? {
      NumberedRecords(topic, last, problems, prove, latex);
    }
  }

  lemma {:induction false} NumberedSucceeds(topic: string, last: int, problems: seq<string>,
                                            prove: (string, string) -> Option<string>, latex: bool)
    ensures Numbered(topic, last, problems, prove, latex).Some? <==>
      forall k :: 0 <= k < |problems| ==> prove(topic, problems[k]).Some?
  {
    if problems != [] {
      var n := |problems| - 1;
      var front := problems[..n];
      NumberedSucceeds(topic, last, front, prove, latex);
      assert forall k :: 0 <= k < n ==> problems[k] == front[k];
    }
  }

  lemma {:induction false} NumberedRecords(topic: string, last: int, problems: seq<string>,
                                           prove: (string, string) -> Option<string>, latex: bool)
    requires Numbered(topic, last, problems, prove, latex).Some?
    ensures var rs := Numbered(topic, last, problems, prove, latex).value;
      && |rs| == |problems|
      && forall k :: 0 <= k < |problems| ==>
           prove(topic, problems[k]).Some? &&
           rs[k] == Record(ShowInt(last + k + 1), Stored(latex, problems[k]),
                           Stored(latex, prove(topic, problems[k]).value))
  {
    if problems != [] {
      var n := |problems| - 1;
      var front := problems[..n];
      NumberedRecords(topic, last, front, prove, latex);
      assert forall k :: 0 <= k < n ==> problems[k] == front[k];
    }
  }

  /** A failed proof request fails the whole numbering, whatever follows. */
  lemma {:induction false} NumberedFails(topic: string, last: int, problems: seq<string>, more: seq<string>,
                                         prove: (string, string) -> Option<string>, latex: bool)
    requires Numbered(topic, last, problems, prove, latex).None?
    ensures Numbered(topic, last, problems + more, prove, latex).None?
    decreases |more|
  {
    if more != [] {
      var n := |more| - 1;
      var all := problems + more;
      assert all[..|all| - 1] == problems + more[..n];
      NumberedFails(topic, last, problems, more[..n], prove, latex);
    } else {
      assert problems + more == problems;
    }
  }

  /** The list `generate_proofs` returns for the topic's current records
      `existing`, given what `data_gen` returned (`None` when it raised):
      the statements numbered and proved, or `[]` when `data_gen`, an `int`
      of an existing id or a proof request raises. */
  function Generated(existing: seq<Record>, topic: string, problems: Option<seq<string>>,
                     prove: (string, string) -> Option<string>, latex: bool): seq<Record>
  {
    match problems
    case None => []
    case Some(ps) =>
      match LastId(existing)
      case None => []
      case Some(last) =>
        match Numbered(topic, last, ps, prove, latex)
        case None => []
        case Some(rs) => rs
  }

  /** A non-empty result holds the statements in order, with their proofs,
      numbered from the largest existing id plus one. */
  lemma GeneratedRecords(existing: seq<Record>, topic: string, problems: Option<seq<string>>,
                         prove: (string, string) -> Option<string>, latex: bool)
    requires Generated(existing, topic, problems, prove, latex) != []
    ensures problems.Some? && LastId(existing).Some?
    ensures var rs := Generated(existing, topic, problems, prove, latex);
      var ps := problems.value;
      && |rs| == |ps|
      && forall k :: 0 <= k < |rs| ==>
           && rs[k].id == ShowInt(LastId(existing).value + k + 1)
           && rs[k].statement == Stored(latex, ps[k])
           && prove(topic, ps[k]).Some?
           && rs[k].proof == Stored(latex, prove(topic, ps[k]).value)
  {
    var last := LastId(existing).value;
    NumberedRecords(topic, last, problems.value, prove, latex);
  }

  /** `generate_proofs` returns `[]` exactly when `data_gen` raises, an
      existing id is not an integer, there is no statement, or a proof
      request fails. */
  lemma GeneratedEmpty(existing: seq<Record>, topic: string, problems: Option<seq<string>>,
                       prove: (string, string) -> Option<string>, latex: bool)
    ensures Generated(existing, topic, problems, prove, latex) == [] <==>
      || problems.None?
      || !AllIds(existing)
      || problems.value == []
      || exists k :: 0 <= k < |problems.value| && prove(topic, problems.value[k]).None?
  {
    LastIdSpec(existing);
    if problems.Some? && LastId(existing).Some? {
      NumberedSpec(topic, LastId(existing).value, problems.value, prove, latex);
    }
  }

  /** `add_topic_proofs` keeps a topic numbered 1..n numbered 1..n + k. */
  lemma ContiguousExtend(rs: seq<Record>, topic: string, problems: Option<seq<string>>,
                         prove: (string, string) -> Option<string>, latex: bool)
    requires Contiguous(rs)
    ensures Contiguous(rs + Generated(rs, topic, problems, prove, latex))
  {
    var added := Generated(rs, topic, problems, prove, latex);
    var all := rs + added;
    if added != [] {
      ContiguousLast(rs);
      GeneratedRecords(rs, topic, problems, prove, latex);
      forall k | 0 <= k < |all| ensures all[k].id == ShowInt(k + 1) {
        if k >= |rs| {
          assert all[k] == added[k - |rs|];
        }
      }
    }
  }

  /** The record a manual add appends: the next id after the topic's
      length. */
  function Appended(rs: seq<Record>, statement: string, proof: string): seq<Record>
  {
    rs + [Record(ShowInt(|rs| + 1), statement, proof)]
  }

  /** The manual add keeps a topic numbered 1..n numbered 1..n + 1, and its
      id is the one `generate_proofs` would have given (see ContiguousLast). */
  lemma ContiguousAppend(rs: seq<Record>, statement: string, proof: string)
    requires Contiguous(rs)
    ensures Contiguous(Appended(rs, statement, proof))
  {
    var all := Appended(rs, statement, proof);
    forall k | 0 <= k < |all| ensures all[k].id == ShowInt(k + 1) {
      if k < |rs| { assert all[k] == rs[k]; }
    }
  }

  /** The test `int(proof["id"]) not in proof_ids` for a record whose id
      is an integer. */
  predicate Survives(proofIds: seq<int>, r: Record)
  {
    ParseInt(r.id).Some? && ParseInt(r.id).value !in proofIds
  }

  /** The comprehension of `remove_proof`: the records whose integer id is
      not listed, or `None` when some id makes `int` raise. */
  function Survivors(rs: seq<Record>, proofIds: seq<int>): Option<seq<Record>>
  {
    if AllIds(rs) then Some(Seqs.Filter(rs, Keeps(proofIds))) else None
  }

  /** The comprehension's condition as a test on records. */
  function Keeps(proofIds: seq<int>): Record -> bool
  {
    r => Survives(proofIds, r)
  }

  /** The ids rewritten to "1".."n" in list order. */
  function Renumber(rs: seq<Record>): seq<Record>
  {
    seq(|rs|, k requires 0 <= k < |rs| => rs[k].(id := ShowInt(k + 1)))
  }

  /** The loop of `remove_proof` that writes `str(i)` into the i-th
      remaining record, counting from 1. */
  method RenumberIds(rs: seq<Record>) returns (renumbered: seq<Record>)
    ensures renumbered == Renumber(rs)
  {
    renumbered := rs;
    for i := 0 to |rs|
      invariant |renumbered| == |rs|
      invariant forall k :: 0 <= k < i ==> renumbered[k] == rs[k].(id := ShowInt(k + 1))
      invariant forall k :: i <= k < |rs| ==> renumbered[k] == rs[k]
    {
      renumbered := renumbered[i := renumbered[i].(id := ShowInt(i + 1))];
    }
  }

  /** The topic's list after `remove_proof`: the survivors renumbered, or
      `None` when the comprehension raises. */
  function Removed(rs: seq<Record>, proofIds: seq<int>): Option<seq<Record>>
  {
    match Survivors(rs, proofIds)
    case None => None
    case Some(kept) => Some(Renumber(kept))
  }

  /** Renumbering leaves statements and proofs alone and numbers 1..n. */
  lemma RenumberSpec(rs: seq<Record>)
    ensures |Renumber(rs)| == |rs| && Contiguous(Renumber(rs))
    ensures forall k :: 0 <= k < |rs| ==>
      Renumber(rs)[k].statement == rs[k].statement && Renumber(rs)[k].proof == rs[k].proof
    ensures Contiguous(rs) ==> Renumber(rs) == rs
  {
  }

  /** After a successful removal the topic holds, numbered 1..n, the
      statements and proofs of the old records whose id is not listed, in
      their old order: the records at increasing positions `idx`, which are
      exactly the positions of the surviving records. */
  lemma RemovedSpec(rs: seq<Record>, proofIds: seq<int>) returns (idx: seq<nat>)
    requires Removed(rs, proofIds).Some?
    ensures var qs := Removed(rs, proofIds).value;
      && Contiguous(qs)
      && |idx| == |qs|
      && (forall k :: 0 <= k < |idx| ==>
            idx[k] < |rs| && qs[k].statement == rs[idx[k]].statement && qs[k].proof == rs[idx[k]].proof)
      && (forall k, l :: 0 <= k < l < |idx| ==> idx[k] < idx[l])
      && (forall j :: 0 <= j < |rs| ==> (ParseInt(rs[j].id).value !in proofIds <==> j in idx))
  {
    var keep := Keeps(proofIds);
    var kept := Seqs.Filter(rs, keep);
    idx := Seqs.FilterIndices(rs, keep);
    RenumberSpec(kept);
  }

  /** `remove_proof` raises, and so changes nothing, exactly when some id
      of the topic is not an integer. */
  lemma RemovedFails(rs: seq<Record>, proofIds: seq<int>)
    ensures Removed(rs, proofIds).None? <==> exists k :: 0 <= k < |rs| && ParseInt(rs[k].id).None?
  {
  }

  /** `int` reads the ids "1" to "4" back. */
  lemma SmallIds()
    ensures ParseInt("1") == Some(1) && ParseInt("2") == Some(2)
    ensures ParseInt("3") == Some(3) && ParseInt("4") == Some(4)
  {
    ParseShow(1); ParseShow(2); ParseShow(3); ParseShow(4);
    assert ShowInt(1) == "1" && ShowInt(2) == "2" && ShowInt(3) == "3" && ShowInt(4) == "4";
  }

  /** The ids 1, 2, 3, 4 are integers, and only 2 is listed. */
  lemma KeepsExample(a: Record, b: Record, c: Record, d: Record)
    requires a.id == "1" && b.id == "2" && c.id == "3" && d.id == "4"
    ensures AllIds([a, b, c, d])
    ensures Keeps([2])(a) && !Keeps([2])(b) && Keeps([2])(c) && Keeps([2])(d)
  {
    var rs := [a, b, c, d];
    SmallIds();
    forall k | 0 <= k < 4 ensures ParseInt(rs[k].id).Some? {
      if k == 0 { assert rs[k] == a; }
      else if k == 1 { assert rs[k] == b; }
      else if k == 2 { assert rs[k] == c; }
      else { assert rs[k] == d; }
    }
  }

  /** Of the ids 1, 2, 3, 4 only 2 is listed, so the other three survive. */
  lemma SurvivorsExample(a: Record, b: Record, c: Record, d: Record)
    requires a.id == "1" && b.id == "2" && c.id == "3" && d.id == "4"
    ensures Survivors([a, b, c, d], [2]) == Some([a, c, d])
  {
    KeepsExample(a, b, c, d);
    Seqs.FilterSecondOut(a, b, c, d, Keeps([2]));
  }

  /** Ids 1, 2, 3, 4 with 2 removed: the former 1, 3 and 4 become 1, 2, 3. */
  lemma RemoveExample(a: Record, b: Record, c: Record, d: Record)
    requires a.id == "1" && b.id == "2" && c.id == "3" && d.id == "4"
    ensures Removed([a, b, c, d], [2]) == Some([a, c.(id := "2"), d.(id := "3")])
  {
    SurvivorsExample(a, b, c, d);
    assert ShowInt(1) == "1" && ShowInt(2) == "2" && ShowInt(3) == "3";
    assert Renumber([a, c, d]) == [a, c.(id := "2"), d.(id := "3")];
  }
}
