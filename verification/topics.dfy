/**
 * `get_topic_ids`: the dominant topic of an ad is the first entry of its
 * topic list, in list order, whose share is strictly greater than
 * `topic_share` (0.4 by default). Ads without such an entry get no topic;
 * the script's `defaultdict(str)` then hands out '' for them, which matches
 * no configured topic.
 */
module Topics {
  import opened Wrappers

  const DefaultTopicShare: real := 0.4

  /** One `{t, p}` entry of a topic-assignment line. */
  datatype TopicShare = TopicShare(topic: int, p: real)

  /** One topic-assignment line: the ad id and its ordered topic list. */
  datatype TopicRecord = TopicRecord(id: string, topics: seq<TopicShare>)

  /** Index of the first entry whose share exceeds `share`. */
  function FirstAbove(topics: seq<TopicShare>, share: real): (r: Option<nat>)
    ensures r.Some? ==> r.value < |topics| && topics[r.value].p > share
    ensures r.Some? ==> forall j :: 0 <= j < r.value ==> topics[j].p <= share
    ensures r.None? ==> forall j :: 0 <= j < |topics| ==> topics[j].p <= share
    decreases |topics|
  {
    if |topics| == 0 then None
    else if topics[0].p > share then Some(0)
    else
      match FirstAbove(topics[1..], share)
      case None => None
      case Some(k) => Some(k + 1)
  }

  /** The dominant topic of one topic list. */
  function DominantTopic(topics: seq<TopicShare>, share: real): Option<int> {
    match FirstAbove(topics, share)
    case None => None
    case Some(i) => Some(topics[i].topic)
  }

  /**
   * The first-above rule, stated without the index: a dominant topic is the
   * topic of an entry above the threshold with none above it earlier; there is
   * none exactly when no entry is above the threshold.
   */
  lemma DominantTopicSpec(topics: seq<TopicShare>, share: real)
    ensures DominantTopic(topics, share).None? <==> forall j :: 0 <= j < |topics| ==> topics[j].p <= share
    ensures DominantTopic(topics, share).Some? ==> exists i ::
      && 0 <= i < |topics|
      && topics[i].topic == DominantTopic(topics, share).value
      && topics[i].p > share
      && forall j :: 0 <= j < i ==> topics[j].p <= share
  {
    match FirstAbove(topics, share)
    case None =>
    case Some(i) =>
      assert topics[i].p > share;
  }

  /** First above the threshold, not the arg-max: `[{5, 0.3}, {2, 0.5}]` gives 2, `[{5, 0.45}, {2, 0.9}]` gives 5. */
  lemma DominantTopicExamples()
    ensures DominantTopic([TopicShare(5, 0.3), TopicShare(2, 0.5)], DefaultTopicShare) == Some(2)
    ensures DominantTopic([TopicShare(5, 0.45), TopicShare(2, 0.9)], DefaultTopicShare) == Some(5)
    ensures DominantTopic([TopicShare(5, 0.4), TopicShare(2, 0.1)], DefaultTopicShare) == None
  {
  }

  /** The last line in `records` for `id` that has a dominant topic sits at index `i`. */
  ghost predicate LastTopicLineAt(records: seq<TopicRecord>, share: real, id: string, i: int) {
    && 0 <= i < |records|
    && records[i].id == id
    && DominantTopic(records[i].topics, share).Some?
    && forall j :: i < j < |records| && records[j].id == id ==> DominantTopic(records[j].topics, share).None?
  }

  /**
   * The dictionary `get_topic_ids` builds, reading lines in file order. An id
   * has an entry exactly when one of its lines has a dominant topic, and the
   * entry is the dominant topic of the last such line.
   */
  function TopicMap(records: seq<TopicRecord>, share: real): (m: map<string, int>)
    ensures forall id :: id in m <==>
      exists i :: 0 <= i < |records| && records[i].id == id && DominantTopic(records[i].topics, share).Some?
    decreases |records|
  {
    if |records| == 0 then map[]
    else
      var front := records[..|records| - 1];
      var r := records[|records| - 1];
      assert forall i :: 0 <= i < |front| ==> front[i] == records[i];
      var m := TopicMap(front, share);
      match DominantTopic(r.topics, share)
      case None => m
      case Some(t) => m[r.id := t]
  }

  /** Line `i` is the last line for `id` with a dominant topic, and that topic is `t`. */
  ghost predicate EntryFromLine(records: seq<TopicRecord>, share: real, id: string, t: int, i: int) {
    LastTopicLineAt(records, share, id, i) && DominantTopic(records[i].topics, share) == Some(t)
  }

  /** A later line that gives `id` no topic leaves its last topic line where it was. */
  lemma EntrySurvivesLine(front: seq<TopicRecord>, r: TopicRecord, share: real, id: string, t: int, i: int)
    requires EntryFromLine(front, share, id, t, i)
    requires r.id != id || DominantTopic(r.topics, share).None?
    ensures EntryFromLine(front + [r], share, id, t, i)
  {
    var records := front + [r];
    forall j | i < j < |records| && records[j].id == id
      ensures DominantTopic(records[j].topics, share).None?
    {
      if j < |front| {
        assert records[j] == front[j];
      }
    }
  }

  /** The entry of an id is the dominant topic of its last line that has one. */
  lemma {:induction false} TopicMapLastLine(records: seq<TopicRecord>, share: real, id: string)
    requires id in TopicMap(records, share)
    ensures exists i :: EntryFromLine(records, share, id, TopicMap(records, share)[id], i)
    decreases |records|
  {
    var front := records[..|records| - 1];
    var r := records[|records| - 1];
    assert records == front + [r];
    var m := TopicMap(records, share);
    var m' := TopicMap(front, share);
    if r.id == id && DominantTopic(r.topics, share).Some? {
      assert EntryFromLine(records, share, id, m[id], |records| - 1);
    } else {
      assert id in m' && m[id] == m'[id];
      TopicMapLastLine(front, share, id);
      var i :| EntryFromLine(front, share, id, m'[id], i);
      EntrySurvivesLine(front, r, share, id, m'[id], i);
    }
  }

  /** `topic_dict[ad_id]`: the ad's topic, or none for the '' default. */
  function TopicOf(m: map<string, int>, id: string): Option<int> {
    if id in m then Some(m[id]) else None
  }
}
