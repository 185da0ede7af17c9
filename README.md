# Medi-Partner: table-of-contents ranker and pre-call routing

Medi-Partner is a chat assistant for the ORCA medical-billing manual. It
answers a question in two stages. First, a local, deterministic ranker
matches the question against a fixed table of contents. Then a generative
language model is called with the matching section labels. This project
models the local stage and the decision that comes before the external
call. Both are in `app.py`. Everything is in one Dafny module, `App`, in
`app.dfy`.

- **Tokenizer.** `re.findall(r'[一-龠ぁ-んァ-ンA-Za-z0-9]+', s)` becomes `Runs`.
  `set(...)` of it becomes `Tokens`. `IsWordChar` matches code points in
  these ranges: U+4E00..U+9FA0, U+3041..U+3093, U+30A1..U+30F3, `A-Z`,
  `a-z` and `0-9`. Every other character separates words. That includes
  the long-vowel mark ー (U+30FC), ヴ, 々, brackets and spaces.
- **Ranker `find_relevant_sections`.** A table is a `seq<(key, title)>` in
  dictionary insertion order. The method `FindRelevantSections` follows the
  source. It has a loop that appends `(score, key + " " + title)` for every
  entry with a positive score, then a stable insertion sort by descending
  score (`SortByScore`), then the first three labels. The method is proved
  equal to the specification `Rank`. Every property below is proved about
  `Rank`.
- **Routing in `get_text_response_gemini`.** `Decide(hasKey, prompt)` returns
  one of three values:
  - `ConfigError(message)` when the API key is missing;
  - `NotFound(message)` when the ranking is empty;
  - `CallModel(contextMessage)` otherwise. This is the only branch that
    would reach the external service.

  The manual is chosen by a substring test for 入院, 退院, 病棟 or 入院料.
  A hit selects `NYUIN_TOC`/"nyuin"; otherwise `GAIRAI_TOC`/"gairai". Both
  tables are given as constant sequences.

Notes from the proofs:
- Within one score, ties keep table order. For each score `k`, the returned
  entries with score `k` are the first ones of that score in table order
  (`RankOrdered`).
- The keyword 入院料 never changes the choice, because any text containing
  it also contains 入院 (`InpatientFeeTermIsSubsumed`).
- The tokenizer does not segment Japanese. A run of kanji and kana with no
  separator is one token. So a title matches only on whole runs (for
  example, マスターメニュー gives マスタ and メニュ, by `LongVowelSeparates`).

Other variants of this assistant retry the model call and tell a safety
block apart from other errors. They also state a dot-to-hyphen rule for
building a reference URL. `app.py` does none of this in code: it makes one
call inside a single `try`, and the URL rule is only text in the
instruction sent to the model. This model follows the code.

## Model

| member | source | states |
|---|---|---|
| App.Tokens | app.py:63 | `set(re.findall(...))`, specified by `TokensAreMaximalRuns` and `NoWordCharsNoTokens` |
| App.Score | app.py:66-67 | `len(query_words.intersection(section_words))`, specified by `ScoreMeaning`, `ScoreIgnoresRepeatedWord` and `ScoreIgnoresRepetition` |
| App.Label | app.py:69 | the `f"{key} {section}"` label, specified by `ScoredMembers` and `RankFromTable` |
| App.Scored | app.py:62-69 | the `scores` list after the loop, specified by `ScoredMembers`, `ScoredCount` and `LabelsOfScored` |
| App.Insert | app.py:71 | one step of the stable descending sort, specified by `InsertPermutes` and `SortDescIsStableSort` |
| App.SortDesc | app.py:71 | `scores.sort(key=..., reverse=True)`, specified by `SortDescIsStableSort` |
| App.Rank | app.py:58-72 | `find_relevant_sections`, specified by `RankLength`, `RankFromTable`, `RankOrdered`, `RankKeepsBest` and `NoWordQueryRanksNothing`; `FindRelevantSections` is proved to return it |
| App.Contains | app.py:87 | `keyword in prompt`, specified by `ContainsMeansOccurs` |
| App.AnyContained | app.py:87 | `any(keyword in prompt for ...)`, specified by `AnyContainedMeansSomeOccurs` |
| App.SelectManual | app.py:87-92 | the choice between NYUIN_TOC and GAIRAI_TOC, specified by `SelectManualSpec`; the two tables are the constants `NyuinToc` (35 entries) and `GairaiToc` (49 entries) of app.py:33-54 |
| App.Join | app.py:99 | `"\n- ".join(...)`, specified by `JoinContainsItems` |
| App.Header | app.py:97 | the first part of `context_message`, specified by `ContextMessageListsLabels` |
| App.ContextMessage | app.py:97-99 | the full `context_message`, specified by `ContextMessageListsLabels` |
| App.Decide | app.py:80-101 | the three outcomes before the API call, specified by `DecideSpec` and `NoWordPromptNeverCallsModel` |
| App.RunLength | app.py:63 | the longest prefix of word characters: it fits in the text, holds only word characters, and ends at the end of the text or at a separator |
| App.Runs | app.py:63 | every match of the regular expression is a non-empty run of word characters |
| App.TokensAreMaximalRuns | app.py:63-66 | a string is a token of a text exactly when it occurs there as a maximal run of word characters, bounded by the text's ends or by separators (both directions) |
| App.NoWordCharsNoTokens | app.py:63 | a text has no tokens exactly when it has no word character |
| App.RunsSplitAtSeparator | app.py:63 | a separator character splits the matches: those of `a + [c] + b` are those of `a` followed by those of `b` |
| App.TokensSplitAtSeparator | app.py:63 | a separator character splits the token set: the tokens of `a + [c] + b` are those of `a` together with those of `b` |
| App.TokenOfToken | app.py:63 | a token of any text has itself as its only token |
| App.RepeatedWordSameTokens | app.py:63 | appending, after a space, a word that is already a token of the text adds no token |
| App.RepeatedTextSameTokens | app.py:63 | repeating a text after a space adds no token, because tokens are a set |
| App.SingleWordRuns | app.py:63 | a non-empty run of word characters yields exactly itself |
| App.LongVowelSeparates | app.py:63 | ー is a separator, so マスターメニュー yields マスタ and メニュ |
| App.ScoreMeaning | app.py:67 | a score is positive exactly when query and title share a token, and is at most the number of distinct tokens of the query and of the title |
| App.ScoreIgnoresRepeatedWord | app.py:63-67 | repeating, after a space, a word already in the query (or in the title) does not change the score |
| App.ScoreIgnoresRepetition | app.py:63-67 | repeating the whole query or the whole title does not change the score |
| App.InsertPermutes | app.py:71 | inserting an element into the sorted list adds exactly that element (multiset) |
| App.SortDescIsStableSort | app.py:71 | the sort orders by non-increasing score, is a permutation, and keeps the original order within each score |
| App.ScoredMembers | app.py:65-69 | the list built by the loop holds exactly the pairs (score, key + " " + title) of the entries with positive score |
| App.ScoredCount | app.py:65-69 | the list built by the loop has one element per entry with positive score |
| App.LabelsOfScored | app.py:65-69 | for every positive score, the loop keeps the entries of that score in table order |
| App.RankLength | app.py:68-72 | the ranker returns min(3, number of entries with positive score) labels, so never more than 3 |
| App.RankFromTable | app.py:65-72 | every returned item is (score, key + " " + title) of a table entry whose score is positive |
| App.RankOrdered | app.py:71-72 | returned scores are non-increasing; within one score the returned labels are a prefix of that score's labels in table order (stable ties) |
| App.RankKeepsBest | app.py:68-72 | an entry with positive score is returned, or scores no higher than every returned entry |
| App.NoWordQueryRanksNothing | app.py:63-68 | a query with no word character (only punctuation, spaces, ー and the like) gives an empty result |
| App.SortByScore | app.py:71 | the insertion-sort loop yields the stable descending sort of the list |
| App.FindRelevantSections | app.py:58-72 | the method's loop, sort and slice return exactly the specified ranking, at most 3 labels |
| App.ContainsMeansOccurs | app.py:87 | the substring test holds exactly when the keyword occurs at some index of the prompt |
| App.AnyContainedMeansSomeOccurs | app.py:87 | `any(...)` over the keywords holds exactly when some keyword occurs in the prompt |
| App.SelectManualSpec | app.py:87-92 | the inpatient manual ("nyuin", NYUIN_TOC) is chosen exactly when 入院, 退院, 病棟 or 入院料 occurs in the prompt, otherwise "gairai" with GAIRAI_TOC |
| App.InpatientFeeTermIsSubsumed | app.py:87 | every prompt containing 入院料 also contains 入院, so the fourth keyword never changes the choice |
| App.JoinContainsItems | app.py:99 | every label joined with "\n- " occurs in the joined text |
| App.ContextMessageListsLabels | app.py:97-99 | the context message starts with the manual-type and quoted-question header; the rest starts with the "関連マニュアル項目:" line and the first "- ", and every ranked label occurs in that rest, not only inside the quoted prompt |
| App.DecideSpec | app.py:80-101 | a missing key gives the configuration error whatever the prompt; with a key, an empty ranking gives the fixed not-found reply; the model would be called exactly when the key is present and the ranking is non-empty, with 1 to 3 labels; that message starts with the header, the part after the header starts with the "関連マニュアル項目:" line, and every label occurs in the part after the header |
| App.NoWordPromptNeverCallsModel | app.py:63-101 | a prompt without word characters never reaches the model call |

## Left out

- Streamlit UI, `handle_prompt` and the `st.session_state.messages` transcript (app.py:115-148): presentation and session state only.
- `load_dotenv` and `os.environ.get` (app.py:11, app.py:80): environment input. The key's presence is the boolean `hasKey`. An empty key counts as missing, as `not api_key` does.
- `genai.configure`, `GenerativeModel`, `generate_content` and the `except Exception` reply (app.py:84, app.py:103-111): a call to an external service whose output is not checked locally. `CallModel` marks the point where it would happen.
- `SYSTEM_INSTRUCTION` (app.py:16-30), including the dot-to-hyphen URL rule: text for the external model that no code runs.
- `Decide` uses the specification `Rank` instead of calling `FindRelevantSections`, because a function cannot call a method. `FindRelevantSections` is proved to return `Rank`.
- SortByScore: Python sorts the list in place with its own stable algorithm. The model builds a new sequence by stable insertion. The result is the same, but update in place is not modelled.
- Dictionary key uniqueness: tables are sequences, and none of the properties needs distinct keys.
- DecideSpec: states that the message starts with the header, that the part after it starts with the "関連マニュアル項目:" line and that every label occurs in that part. It does not state the order of the labels in the message; `ContextMessage` defines that layout.
