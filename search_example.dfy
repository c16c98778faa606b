/**
 * A worked search over two entries: the query "ethics" finds the entry whose
 * content mentions ethics and not the one about gradient descent.
 */
module SearchExample {
  import opened Clock
  import opened Text
  import opened KnowledgeStore

  /** `str` of a string content is the string itself. */
  function Str(s: string): string {
    s
  }

  lemma LowerEthicsText(s: string)
    requires s == "Research on ethics in AI"
    ensures Lower(s) == "research on ethics in ai"
  {
  }

  lemma LowerGradientText(s: string)
    requires s == "Gradient descent"
    ensures Lower(s) == "gradient descent"
  {
  }

  lemma LowerQuery(s: string)
    requires s == "ethics"
    ensures Lower(s) == "ethics"
  {
  }

  lemma EthicsOccurs(s: string, q: string)
    requires s == "research on ethics in ai" && q == "ethics"
    ensures Contains(s, q)
  {
    ContainsIff(s, q);
    assert OccursAt(s, q, 12);
  }

  lemma EthicsAbsent(s: string, q: string)
    requires s == "gradient descent" && q == "ethics"
    ensures !Contains(s, q)
  {
    ContainsIff(s, q);
    forall i | 0 <= i && i + |q| <= |s|
      ensures !OccursAt(s, q, i)
    {
      assert s[i..i + |q|][1] == s[i + 1];
      assert s[i] == 'e' ==> i == 5 || i == 10;
    }
  }

  /**
   * Searching "ethics" over an entry about ethics and one about gradient
   * descent, stored under two different IDs, yields exactly the first.
   */
  lemma EthicsSearch(first: string, ethics: Entry<string>, second: string, ml: Entry<string>, query: string)
    requires first != second
    requires query == "ethics"
    requires ethics.content == "Research on ethics in AI"
    requires ml.content == "Gradient descent"
    ensures Found([first, second], map[first := ethics, second := ml], query, Str) == [Hit(first, ethics)]
  {
    var keys, items := [first, second], map[first := ethics, second := ml];
    EthicsMatches(ethics.content, query);
    GradientDoesNotMatch(ml.content, query);
    assert keys[..1] == [first];
    assert Found(keys[..1], items, query, Str) == [Hit(first, ethics)];
  }

  /** The two entries' IDs differ, since their topics do. */
  lemma EthicsAndMLIds(t: Instant)
    ensures EntryId("AI Ethics", t) != EntryId("ML", t)
  {
  }

  lemma EthicsMatches(content: string, query: string)
    requires query == "ethics"
    requires content == "Research on ethics in AI"
    ensures Matches(query, Str, content)
  {
    LowerEthicsText(content);
    LowerQuery(query);
    EthicsOccurs(Lower(content), Lower(query));
  }

  lemma GradientDoesNotMatch(content: string, query: string)
    requires query == "ethics"
    requires content == "Gradient descent"
    ensures !Matches(query, Str, content)
  {
    LowerGradientText(content);
    LowerQuery(query);
    EthicsAbsent(Lower(content), Lower(query));
  }
}
