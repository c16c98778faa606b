/**
 * The research tracker: a table from topic name to a topic record holding a
 * description, a creation time and append-only lists of papers and notes.
 */
module Research {
  import opened Clock

  /** A value in a stored paper record: one the caller gave, or the `added_at` time. */
  datatype Value<V> = Given(v: V) | Timestamp(t: Instant)

  /** A paper record: the caller's `paper_info` fields plus `added_at`. */
  type Paper<V> = map<string, Value<V>>

  /** A note record: `{"content": note, "created_at": now}`. */
  datatype Note = Note(content: string, createdAt: Instant)

  datatype Topic<V> = Topic(description: string, createdAt: Instant, papers: seq<Paper<V>>, notes: seq<Note>)

  /** Normal return, or the `ValueError` raised with its message. */
  datatype Outcome = Pass | Fail(error: string)

  const AddedAt := "added_at"

  /** The message of the `ValueError` for an unknown topic. */
  function NotFound(topic: string): string {
    "Topic " + topic + " not found"
  }

  /**
   * `{**paper_info, "added_at": now}`: every field of `info` is kept, and the
   * `added_at` field is the clock reading even when `info` already had one.
   */
  function WithAddedAt<V>(info: map<string, V>, now: Instant): (p: Paper<V>)
    ensures p.Keys == info.Keys + {AddedAt}
    ensures p[AddedAt] == Timestamp(now)
    ensures forall k :: k in info && k != AddedAt ==> p[k] == Given(info[k])
  {
    (map k | k in info :: Given(info[k]))[AddedAt := Timestamp(now)]
  }

  /**
   * `after` is `before` with papers and notes only appended: the same topics,
   * each with the same description and creation time, and each list of
   * papers and notes a prefix of its later value.
   */
  ghost predicate Extends<V>(before: map<string, Topic<V>>, after: map<string, Topic<V>>) {
    && before.Keys == after.Keys
    && forall t :: t in before ==>
         && after[t].description == before[t].description
         && after[t].createdAt == before[t].createdAt
         && before[t].papers <= after[t].papers
         && before[t].notes <= after[t].notes
  }

  /** Growth accumulates over any run of `add_paper` and `add_note` calls. */
  lemma ExtendsTransitive<V>(a: map<string, Topic<V>>, b: map<string, Topic<V>>, c: map<string, Topic<V>>)
    requires Extends(a, b) && Extends(b, c)
    ensures Extends(a, c)
  {
  }

  /** `AIResearcher`, reduced to its `research_topics` table. */
  class AIResearcher<V> {
    var topics: map<string, Topic<V>>

    constructor ()
      ensures topics == map[]
    {
      topics := map[];
    }

    /** `add_research_topic`: a fresh record replaces whatever `topic` held before. */
    method AddResearchTopic(topic: string, description: string, now: Instant)
      modifies this
      ensures topic in topics
      ensures topics[topic] == Topic(description, now, [], [])
      ensures forall t :: t != topic ==> (t in topics <==> t in old(topics))
      ensures forall t :: t != topic && t in topics ==> topics[t] == old(topics)[t]
    {
      topics := topics[topic := Topic(description, now, [], [])];
    }

    /** `add_paper`: appends one stamped paper record to a known topic. */
    method AddPaper(topic: string, info: map<string, V>, now: Instant) returns (outcome: Outcome)
      modifies this
      ensures outcome == (if topic in old(topics) then Pass else Fail(NotFound(topic)))
      ensures topic !in old(topics) ==> topics == old(topics)
      ensures Extends(old(topics), topics)
      ensures topic in old(topics) ==>
        && topics[topic].papers == old(topics)[topic].papers + [WithAddedAt(info, now)]
        && topics[topic].notes == old(topics)[topic].notes
      ensures forall t :: t != topic && t in topics ==> topics[t] == old(topics)[t]
    {
      if topic !in topics {
        return Fail(NotFound(topic));
      }
      var record := topics[topic];
      topics := topics[topic := record.(papers := record.papers + [WithAddedAt(info, now)])];
      outcome := Pass;
    }

    /** `add_note`: appends one note record to a known topic. */
    method AddNote(topic: string, note: string, now: Instant) returns (outcome: Outcome)
      modifies this
      ensures outcome == (if topic in old(topics) then Pass else Fail(NotFound(topic)))
      ensures topic !in old(topics) ==> topics == old(topics)
      ensures Extends(old(topics), topics)
      ensures topic in old(topics) ==>
        && topics[topic].notes == old(topics)[topic].notes + [Note(note, now)]
        && topics[topic].papers == old(topics)[topic].papers
      ensures forall t :: t != topic && t in topics ==> topics[t] == old(topics)[t]
    {
      if topic !in topics {
        return Fail(NotFound(topic));
      }
      var record := topics[topic];
      topics := topics[topic := record.(notes := record.notes + [Note(note, now)])];
      outcome := Pass;
    }
  }
}
