/** The copy of `MathProofDatasetManager` in main.py. It differs from the
    one in dataset_manager.py in three ways: statements and proofs pass
    through `_latex_formatter` before they are stored, `add_proof_manually`
    takes the proof and an optional id from its caller, and
    `summary_dataset` lists only the topics. It has no `remove_proof`.

    As in dataset_manager.py, `response` is what the problem generator
    returned (`None` when the call raised), `prove(topic, statement)` is
    the proof the proof generator returns (`None` when it raised), and the
    JSON file is the ghost `saved`. */
module MainManager {
  import opened Wrappers
  import opened Ids
  import opened Records
  import ProblemParser
  import Latex

  class ProofDatasetManager {
    /** `self.dataset` without its key order ... */
    var dataset: map<string, seq<Record>>
    /** ... which is kept here: the topics in insertion order. */
    var topics: seq<string>
    /** The contents of the JSON file after the last save. */
    ghost var saved: Option<Snapshot>

    ghost predicate Valid()
      reads this
    {
      KeysInOrder(dataset, topics)
    }

    /** `__init__` / `_load_dataset`: the stored dataset, or an empty one
        when there is no file. */
    constructor (stored: Option<Snapshot>)
      requires stored.Some? ==> KeysInOrder(stored.value.records, stored.value.topics)
      ensures Valid()
      ensures stored.None? ==> dataset == map[] && topics == []
      ensures stored.Some? ==> dataset == stored.value.records && topics == stored.value.topics
      ensures saved == stored
    {
      match stored {
        case None =>
          dataset := map[];
          topics := [];
        case Some(s) =>
          dataset := s.records;
          topics := s.topics;
      }
      saved := stored;
    }

    /** `get_topic_proofs`: the topic's records, `[]` for an unknown topic. */
    function GetTopicProofs(topic: string): (r: seq<Record>)
      reads this
      ensures topic in dataset ==> r == dataset[topic]
      ensures topic !in dataset ==> r == []
    {
      if topic in dataset then dataset[topic] else []
    }

    /** `summary_dataset`: every topic once, in insertion order. */
    function SummaryDataset(): (r: seq<string>)
      reads this
      requires Valid()
      ensures KeysInOrder(dataset, r)
      ensures r == topics
    {
      topics
    }

    /** `generate_proofs`: as in dataset_manager.py, but the statement and
        the proof of each record are passed through `_latex_formatter`. */
    method GenerateProofs(topic: string, response: Option<string>, prove: (string, string) -> Option<string>)
      returns (newProblems: seq<Record>)
      ensures newProblems == Generated(GetTopicProofs(topic), topic, ProblemParser.Outcome(response), prove, true)
    {
      if response.None? {
        return [];
      }
      var problems := ProblemParser.DataGen(response.value);
      var lastId := LastId(GetTopicProofs(topic));
      if lastId.None? {
        return [];
      }
      var numbered := NumberProblems(topic, lastId.value, problems, prove, true);
      newProblems := if numbered.None? then [] else numbered.value;
    }

    /** The first step of `add_topic_proofs` and `add_proof_manually`: an
        unknown topic gets an empty list, added last in key order. */
    method EnsureTopic(topic: string)
      requires Valid()
      modifies this
      ensures Valid()
      ensures topics == if topic in old(dataset) then old(topics) else old(topics) + [topic]
      ensures dataset == old(dataset)[topic := old(GetTopicProofs(topic))]
      ensures saved == old(saved)
    {
      KeysInOrderSet(dataset, topics, topic, GetTopicProofs(topic));
      if topic !in dataset {
        dataset := dataset[topic := []];
        topics := topics + [topic];
      }
    }

    /** `add_topic_proofs`: creates the topic if needed, appends the
        generated records and saves. */
    method AddTopicProofs(topic: string, response: Option<string>, prove: (string, string) -> Option<string>)
      requires Valid()
      modifies this
      ensures Valid()
      ensures topics == if topic in old(dataset) then old(topics) else old(topics) + [topic]
      ensures topic in dataset && dataset == old(dataset)[topic := dataset[topic]]
      ensures dataset[topic] == old(GetTopicProofs(topic)) +
        Generated(old(GetTopicProofs(topic)), topic, ProblemParser.Outcome(response), prove, true)
      ensures saved == Some(Snapshot(topics, dataset))
    {
      EnsureTopic(topic);
      ghost var created := dataset;
      var newProblems := GenerateProofs(topic, response, prove);
      KeysInOrderSet(dataset, topics, topic, dataset[topic] + newProblems);
      dataset := dataset[topic := dataset[topic] + newProblems];
      SetTwice(old(dataset), topic, created[topic], dataset[topic]);
      saved := Some(Snapshot(topics, dataset));
    }

    /** `add_proof_manually`: creates the topic if needed and appends one
        record with the formatted statement and proof, under `customId` or,
        when there is none, the topic's length plus one; then saves. */
    method AddProofManually(topic: string, statement: string, proof: string, customId: Option<string>)
      requires Valid()
      modifies this
      ensures Valid()
      ensures topics == if topic in old(dataset) then old(topics) else old(topics) + [topic]
      ensures dataset == old(dataset)[topic := old(GetTopicProofs(topic)) +
        [Record(ManualId(old(GetTopicProofs(topic)), customId), Latex.Format(statement), Latex.Format(proof))]]
      ensures saved == Some(Snapshot(topics, dataset))
    {
      EnsureTopic(topic);
      ghost var created := dataset;
      var id := if customId.None? then ShowInt(|dataset[topic]| + 1) else customId.value;
      var newProof := Record(id, Latex.Format(statement), Latex.Format(proof));
      KeysInOrderSet(dataset, topics, topic, dataset[topic] + [newProof]);
      dataset := dataset[topic := dataset[topic] + [newProof]];
      SetTwice(old(dataset), topic, created[topic], dataset[topic]);
      saved := Some(Snapshot(topics, dataset));
    }
  }

  /** The id `add_proof_manually` gives a record appended to `rs`. */
  function ManualId(rs: seq<Record>, customId: Option<string>): string
  {
    match customId
    case None => ShowInt(|rs| + 1)
    case Some(id) => id
  }

  /** Appending a manual record to a topic numbered 1..n keeps it numbered
      1..n + 1 exactly when no custom id is given or the custom id is the
      one the default would have been. */
  lemma ManualContiguous(rs: seq<Record>, customId: Option<string>, statement: string, proof: string)
    requires Contiguous(rs)
    ensures Contiguous(rs + [Record(ManualId(rs, customId), statement, proof)]) <==>
      customId.None? || customId.value == ShowInt(|rs| + 1)
  {
    var all := rs + [Record(ManualId(rs, customId), statement, proof)];
    assert all[|rs|].id == ManualId(rs, customId);
    if customId.None? || customId.value == ShowInt(|rs| + 1) {
      forall k | 0 <= k < |all| ensures all[k].id == ShowInt(k + 1) {
        if k < |rs| { assert all[k] == rs[k]; }
      }
    }
  }

  /** A custom id breaks the numbering: on an empty topic, `"7"` is not 1. */
  lemma CustomIdExample(statement: string, proof: string)
    ensures !Contiguous([Record(ManualId([], Some("7")), statement, proof)])
  {
    var r := Record(ManualId([], Some("7")), statement, proof);
    assert [r][0].id == "7";
    assert ShowInt(1) == "1";
  }
}
