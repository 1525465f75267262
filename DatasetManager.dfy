/** `MathProofDatasetManager` of dataset_manager.py: a dictionary from
    topic to its list of records, kept in insertion order and written to a
    JSON file after each change.

    The remote calls are parameters: `response` is what the problem
    generator returned (`None` when the call raised) and `prove(topic,
    statement)` is the proof the proof generator returns (`None` when it
    raised). The JSON file is the ghost `saved`, the snapshot of the last
    write; printing and logging are not modelled. */
module DatasetManager {
  import opened Wrappers
  import opened Ids
  import opened Records
  import ProblemParser

  /** How a manual add ends: the record is appended, the user answered
      something other than "y", or the proof request raised (the exception
      leaves the method, after the topic key has been created). */
  datatype Status = Added | Declined | ProofFailed

  class ProofDatasetManager {
    /** `self.dataset` without its key order ... */
    var dataset: map<string, seq<Record>>
    /** ... which is kept here: the topics in insertion order. */
    var topics: seq<string>
    /** The contents of the JSON file after the last save. */
    ghost var saved: Option<Snapshot>

    ghost predicate Valid()
      reads this
    {
      KeysInOrder(dataset, topics)
    }

    /** `__init__` / `_load_dataset`: the stored dataset, or an empty one
        when there is no file. */
    constructor (stored: Option<Snapshot>)
      requires stored.Some? ==> KeysInOrder(stored.value.records, stored.value.topics)
      ensures Valid()
      ensures stored.None? ==> dataset == map[] && topics == []
      ensures stored.Some? ==> dataset == stored.value.records && topics == stored.value.topics
      ensures saved == stored
    {
      match stored {
        case None =>
          dataset := map[];
          topics := [];
        case Some(s) =>
          dataset := s.records;
          topics := s.topics;
      }
      saved := stored;
    }

    /** `get_topic_proofs`: the topic's records, `[]` for an unknown topic. */
    function GetTopicProofs(topic: string): (r: seq<Record>)
      reads this
      ensures topic in dataset ==> r == dataset[topic]
      ensures topic !in dataset ==> r == []
    {
      if topic in dataset then dataset[topic] else []
    }

    /** `summary_dataset`: one line per topic, in insertion order, giving
        the number of records. */
    function SummaryDataset(): (r: seq<string>)
      reads this
      requires Valid()
      ensures |r| == |topics|
      ensures forall k :: 0 <= k < |topics| ==> r[k] == SummaryLine(topics[k], |GetTopicProofs(topics[k])|)
    {
      seq(|topics|, k requires 0 <= k < |topics| reads this => SummaryLine(topics[k], |GetTopicProofs(topics[k])|))
    }

    /** `generate_proofs`: numbers the parsed statements after the largest
        existing id and asks for a proof of each; `[]` when anything
        raises. The dataset is not changed. */
    method GenerateProofs(topic: string, response: Option<string>, prove: (string, string) -> Option<string>)
      returns (newProblems: seq<Record>)
      ensures newProblems == Generated(GetTopicProofs(topic), topic, ProblemParser.Outcome(response), prove, false)
    {
      if response.None? {
        return [];
      }
      var problems := ProblemParser.DataGen(response.value);
      var lastId := LastId(GetTopicProofs(topic));
      if lastId.None? {
        return [];
      }
      var numbered := NumberProblems(topic, lastId.value, problems, prove, false);
      newProblems := if numbered.None? then [] else numbered.value;
    }

    /** The first step of `add_topic_proofs` and `add_proof_manually`: an
        unknown topic gets an empty list, added last in key order. */
    method EnsureTopic(topic: string)
      requires Valid()
      modifies this
      ensures Valid()
      ensures topics == if topic in old(dataset) then old(topics) else old(topics) + [topic]
      ensures dataset == old(dataset)[topic := old(GetTopicProofs(topic))]
      ensures saved == old(saved)
    {
      KeysInOrderSet(dataset, topics, topic, GetTopicProofs(topic));
      if topic !in dataset {
        dataset := dataset[topic := []];
        topics := topics + [topic];
      }
    }

    /** `add_topic_proofs`: creates the topic if needed, appends the
        generated records and saves. */
    method AddTopicProofs(topic: string, response: Option<string>, prove: (string, string) -> Option<string>)
      requires Valid()
      modifies this
      ensures Valid()
      ensures topics == if topic in old(dataset) then old(topics) else old(topics) + [topic]
      ensures topic in dataset && dataset == old(dataset)[topic := dataset[topic]]
      ensures dataset[topic] == old(GetTopicProofs(topic)) +
        Generated(old(GetTopicProofs(topic)), topic, ProblemParser.Outcome(response), prove, false)
      ensures saved == Some(Snapshot(topics, dataset))
    {
      EnsureTopic(topic);
      ghost var created := dataset;
      var newProblems := GenerateProofs(topic, response, prove);
      KeysInOrderSet(dataset, topics, topic, dataset[topic] + newProblems);
      dataset := dataset[topic := dataset[topic] + newProblems];
      SetTwice(old(dataset), topic, created[topic], dataset[topic]);
      saved := Some(Snapshot(topics, dataset));
    }

    /** `add_proof_manually`: creates the topic if needed and asks for a
        proof; with `checkProof` the record is appended only if the user
        `accepted` it. The new id is the topic's length plus one. */
    method AddProofManually(topic: string, statement: string, prove: (string, string) -> Option<string>,
                            checkProof: bool, accepted: bool)
      returns (status: Status)
      requires Valid()
      modifies this
      ensures Valid()
      ensures topics == if topic in old(dataset) then old(topics) else old(topics) + [topic]
      ensures status == if prove(topic, statement).None? then ProofFailed
                        else if checkProof && !accepted then Declined
                        else Added
      ensures status == Added ==>
        && dataset == old(dataset)[topic := Appended(old(GetTopicProofs(topic)), statement, prove(topic, statement).value)]
        && saved == Some(Snapshot(topics, dataset))
      ensures status != Added ==> dataset == old(dataset)[topic := old(GetTopicProofs(topic))] && saved == old(saved)
    {
      EnsureTopic(topic);
      ghost var created := dataset;
      var customId := ShowInt(|dataset[topic]| + 1);
      var proof := prove(topic, statement);
      if proof.None? {
        return ProofFailed;
      }
      var newProof := Record(customId, statement, proof.value);
      if checkProof && !accepted {
        return Declined;
      }
      KeysInOrderSet(dataset, topics, topic, dataset[topic] + [newProof]);
      dataset := dataset[topic := dataset[topic] + [newProof]];
      SetTwice(old(dataset), topic, created[topic], dataset[topic]);
      saved := Some(Snapshot(topics, dataset));
      status := Added;
    }

    /** `remove_proof`: drops the records whose integer id is listed and
        renumbers the rest 1..n. An unknown topic, or an id `int` cannot
        read, leaves everything as it was. */
    method RemoveProof(topic: string, proofIds: seq<int>)
      requires Valid()
      modifies this
      ensures Valid()
      ensures topics == old(topics)
      ensures topic !in old(dataset) ==> dataset == old(dataset) && saved == old(saved)
      ensures topic in old(dataset) ==>
        match Removed(old(dataset)[topic], proofIds)
        case None => dataset == old(dataset) && saved == old(saved)
        case Some(rs) => dataset == old(dataset)[topic := rs] && saved == Some(Snapshot(topics, dataset))
    {
      if topic !in dataset {
        return;
      }
      var survivors := Survivors(dataset[topic], proofIds);
      if survivors.None? {
        return;
      }
      var kept := survivors.value;
      dataset := dataset[topic := kept];
      var renumbered := RenumberIds(dataset[topic]);
      dataset := dataset[topic := renumbered];
      SetTwice(old(dataset), topic, kept, dataset[topic]);
      saved := Some(Snapshot(topics, dataset));
    }
  }

  /** One line of `summary_dataset`. */
  function SummaryLine(topic: string, count: nat): string
  {
    topic + ": " + ShowInt(count) + " proofs"
  }

  /** A summary line determines its count: the lines of one topic with
      different numbers of records differ. */
  lemma SummaryLineCount(topic: string, a: nat, b: nat)
    requires SummaryLine(topic, a) == SummaryLine(topic, b)
    ensures a == b
  {
    var prefix := topic + ": ";
    var x, y := ShowInt(a), ShowInt(b);
    var line := SummaryLine(topic, a);
    assert line == prefix + x + " proofs";
    assert line == prefix + y + " proofs";
    assert line[|prefix|..|prefix| + |x|] == x;
    assert line[|prefix|..|prefix| + |y|] == y;
    ShowIntInjective(a, b);
  }
}
