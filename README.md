# Research assistant tables, modelled in Dafny

This project models the two in-memory tables of a small research-assistant
scaffold and proves their contracts.

- **Knowledge base** (`src/knowledge_base.py`, class `KnowledgeBase`). It is a
  table from entry ID to an entry record with `topic`, `content`, `created_at`
  and `last_modified`. Its operations are `add_entry`, `get_entry`,
  `update_entry` and `search`. The table is a Python `dict`: it keeps keys in
  insertion order, and assigning to an existing key keeps that key's
  position. `ordered_dict.dfy` models exactly that (`OrderedDict.Dict`: a key
  sequence plus a map), and `knowledge_store.dfy` holds the class
  `KnowledgeStore.KnowledgeBase`, whose `entries` field the methods reassign.
- **Research tracker** (`src/main.py`, class `AIResearcher`). It is a table
  from topic name to a record with `description`, `created_at`, `papers` and
  `notes`. Its operations are `add_research_topic`, `add_paper` and
  `add_note`. `research.dfy` holds the class `Research.AIResearcher`.

Clock reads are parameters. `add_entry` calls `datetime.now()` three times:
once for the ID stamp, once for `created_at` and once for `last_modified`.
`AddEntry` therefore takes three `Clock.Instant` values in that order. The
ID stamp depends only on the whole seconds of its reading (`Clock.Stamp`).

The entry ID is `topic + "_" + stamp`. The model proves that two adds get
the same ID exactly when they are for the same topic and fall in the same
second (`EntryIdCollision`). In that case the second add overwrites the
first: the table does not grow, and no trace of the first record remains
(`SameSecondAddsCollide`). This is a defect of the source: adding two
entries to one topic within a second loses the first silently. The model
reproduces it as written.

Search keeps the entries whose lower-cased rendered content contains the
lower-cased query. The rendering `str(content)` is a parameter
`render: C -> string` of `Search`, where `C` is the content type. Lower-casing
is ASCII only (`Text.Lower`). The substring test is `Text.Contains`, proved
equal to "occurs at some index" (`ContainsIff`). `search_example.dfy` works
one search through: the query "ethics" over an entry about ethics and an
entry about gradient descent returns only the first.

After an add, `created_at` and `last_modified` come from two separate clock
reads, so they need not be equal. The model only proves that they are
ordered when the clock never runs backwards (`AddKeepsChronological`,
`UpdateKeepsChronological`). Likewise, an update moves `last_modified`
strictly forward only if the clock has advanced since the last read.

## Model

| member | source | states |
|---|---|---|
| `Clock.DigitsInjective` | src/knowledge_base.py:31 | Two different whole-second counts never get the same stamp, and equal counts get equal stamps. |
| `Text.Lower` | src/knowledge_base.py:87 | `lower()` keeps the length, lower-cases every ASCII capital at its position, and leaves no capital behind. |
| `Text.LowerIdempotent` | src/knowledge_base.py:87 | Lower-casing an already lower-cased string changes nothing. |
| `Text.ContainsIff` | src/knowledge_base.py:87 | `q in s` holds exactly when `q` occurs in `s` at some index. |
| `OrderedDict.Empty` | src/knowledge_base.py:12 | `{}` is a valid dict with no keys. |
| `OrderedDict.Dict.Put` | src/knowledge_base.py:32-37 | `d[k] = v` keeps the dict valid. Afterwards `k` maps to `v` and every other key keeps its value. An existing key keeps its position; a new key is appended last. |
| `OrderedDict.PutTwice` | src/knowledge_base.py:32-37 | Assigning one key twice equals assigning only the second value. |
| `OrderedDict.SizeIsKeyCount` | src/knowledge_base.py:12 | In a valid dict the number of entries equals the number of keys in the order list. |
| `KnowledgeStore.EntryIdCollision` | src/knowledge_base.py:31 | Two IDs `topic_stamp` are equal exactly when the topics are equal and the clock reads fall in the same second. |
| `KnowledgeStore.SameSecondAddsCollide` | src/knowledge_base.py:31-37 | A second add to the same topic in the same second reuses the first ID. The key count does not grow, and the table equals one where only the second record was ever added. |
| `KnowledgeStore.AddKeepsChronological` | src/knowledge_base.py:31-37 | If the three clock reads of an add are in order and not before earlier reads, every entry still has `created_at` no later than `last_modified`. |
| `KnowledgeStore.UpdateKeepsChronological` | src/knowledge_base.py:68-69 | If an update's clock read is not before earlier reads, every entry still has `created_at` no later than `last_modified`. |
| `KnowledgeStore.FoundMembership` | src/knowledge_base.py:85-89 | A hit is in the search result exactly when its `id` is a key, its record is that key's entry, and the entry's lower-cased content contains the lower-cased query. |
| `KnowledgeStore.FoundLength` | src/knowledge_base.py:85-89 | The search result has at most one hit per key. |
| `KnowledgeStore.FoundInKeyOrder` | src/knowledge_base.py:86-88 | Hits appear in the insertion order of their keys: a later hit is under a later key. |
| `KnowledgeStore.FoundIgnoresQueryCase` | src/knowledge_base.py:87 | A query and its lower-cased form select the same hits. |
| `KnowledgeStore.KnowledgeBase.constructor` | src/knowledge_base.py:10-14 | The table starts empty and valid. |
| `KnowledgeStore.KnowledgeBase.AddEntry` | src/knowledge_base.py:20-40 | Returns `topic + "_" + stamp` of the first clock read. Stores `{topic, content, created_at, last_modified}` under that ID by dict assignment, so an earlier entry with the same ID is overwritten in place. A lookup of the returned ID then yields that record. |
| `KnowledgeStore.KnowledgeBase.GetEntry` | src/knowledge_base.py:42-52 | Changes nothing. Returns `None` exactly when the ID is not a key, and otherwise that key's record. |
| `KnowledgeStore.KnowledgeBase.UpdateEntry` | src/knowledge_base.py:54-72 | Returns false and changes nothing for an unknown ID. Otherwise it returns true, sets `content` and `last_modified` of that entry, keeps its `topic` and `created_at`, and keeps all other entries and the key order. |
| `KnowledgeStore.KnowledgeBase.Search` | src/knowledge_base.py:74-89 | Changes nothing. Returns exactly the matching hits in key order, with at most as many hits as entries. |
| `SearchExample.EthicsSearch` | src/knowledge_base.py:85-89 | Searching "ethics" over "Research on ethics in AI" and "Gradient descent", stored under two different IDs, returns only the first entry with its ID. |
| `SearchExample.EthicsAndMLIds` | src/knowledge_base.py:31 | Entries for topics "AI Ethics" and "ML" added in the same second get different IDs. |
| `Research.WithAddedAt` | src/main.py:35-38 | `{**paper_info, "added_at": now}` keeps every field of `paper_info` and adds `added_at`. `added_at` holds the clock reading even when `paper_info` already had that key. |
| `Research.ExtendsTransitive` | src/main.py:30-50 | Growth composes: if each step keeps the topics and only appends to papers and notes, so does the whole run. |
| `Research.AIResearcher.constructor` | src/main.py:14-18 | `research_topics` starts empty. |
| `Research.AIResearcher.AddResearchTopic` | src/main.py:20-28 | Maps the topic to a fresh record with the description, the clock reading and empty `papers` and `notes`. It replaces any earlier record, and every other topic is unchanged. |
| `Research.AIResearcher.AddPaper` | src/main.py:30-39 | An unknown topic fails with `Topic <t> not found` and nothing changes. Otherwise exactly one merged paper record is appended to that topic's `papers`. `notes`, description and `created_at` are kept, earlier papers stay a prefix, and other topics are unchanged. |
| `Research.AIResearcher.AddNote` | src/main.py:41-50 | An unknown topic fails with `Topic <t> not found` and nothing changes. Otherwise exactly one `{content, created_at}` record is appended to that topic's `notes`. `papers`, description and `created_at` are kept, and other topics are unchanged. |

## Left out

- File persistence is left out: `_ensure_storage_exists`, `_save_entry`, `_load_entry` and the `storage_path` field. They are filesystem I/O and JSON serialisation, and `_load_entry` is never called.
- AddEntry, UpdateEntry: `_save_entry` runs after the in-memory change. A failing write would raise with the table already changed. The contracts describe the normal return only.
- Logging calls are left out. They are not part of the behaviour.
- `datetime.now()`, `strftime` and `isoformat` are not modelled. Clock reads are `Clock.Instant` parameters, and timestamps are stored as those readings instead of ISO strings.
- Clock.Stamp: the stamp is the decimal whole-second count, not the calendar format `%Y%m%d_%H%M%S`, because calendar arithmetic is left out. Both depend only on the whole second, and both are injective: the calendar form has a fixed width for four-digit years, and the decimal form contains no `_`. So `EntryIdCollision` holds for both.
- KnowledgeStore.Matches: `str(content)` is the `render` parameter. Python's Unicode `lower()` is reduced to ASCII letters.
- Aliasing is not modelled. `get_entry` returns the stored dict itself, and `search` results share the content objects, so a caller's later mutation shows up in the table. The model is by value.
- The key order of `research_topics` is not modelled, because no operation of `AIResearcher` observes it.
- The `start_time` and unused `knowledge_base` fields of `AIResearcher` and the `main()` driver are left out.
- The `ValueError` of `add_paper` and `add_note` becomes the `Research.Outcome` value `Fail` with the same message.
- `src/paper_analyzer.py` is not part of this model. Every method there is a stub that returns a fixed empty value.
