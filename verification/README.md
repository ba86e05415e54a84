# Community bot decision logic, in Dafny

This project models the deterministic logic of a Slack community bot. The bot:

- runs a two-question onboarding survey over direct messages;
- extracts discussion topics with a language model;
- keeps a knowledge graph of who is expert in, working on, or interested in which topic;
- tags relevant members in a channel, subject to a one-hour per-user cooldown.

In the Python code this logic is interleaved with calls to Slack, Airtable, OpenAI and Neo4j. In the model, every such call becomes an input: a reply string, an `Option`, a map, or a function from attempt number to outcome. Everything around those calls is written as pure functions over sequences and maps, and proved.

The modules follow the code:

| module | models |
|---|---|
| `Cooldown` | the per-user tag cooldown map in `utils.py`: check, remaining time, mark, sweep |
| `Expansion` | the parse and fallbacks of `expand_topics_for_matching` |
| `Consolidation` | the first half of `suggest_relevant_users` after the graph query: each found topic is mapped back to a canonical topic, and users are merged across topics with their best relationship |
| `Ranking` | the stable sort by (relationship tier, activity descending) |
| `Suggestion` | the rest of `suggest_relevant_users`: filter out users in cooldown, take the top K, and return the overall result or `None` |
| `Gate` | `should_suggest_users`: hard guards, the strict `YES` parse, and the keyword fallback |
| `Delivery` | `safe_say`: retries with exponential back-off on rate limits |
| `Survey` | `get_openai_response`, `handle_survey_start_button` and `is_relevant_answer` in `slack_bot.py` |
| `Command` | the argument parsing of the `/trigger-survey` handler in `app.py`, and `is_admin` |
| `Topics` | the comma-split clean-up at the end of `extract_topics` in `nlp.py` |
| `Airtable` | three steps of `airtable_topic_extractor.py`: the record filter and id derivation, interest extraction, and the save loop with its per-type counts |
| `ModelCall` | the reply shapes of the responses endpoint, and the shared strict `YES` test |
| `Text`, `Seqs`, `Wrappers` | Python string operations (`strip`, `split`, `split()`, `lower`, `upper`, `in`), first-occurrence de-duplication, filtering, and `Option` |

Time is an explicit integer `now` in seconds.

`safe_say` appears twice in the code, with the same body: at `slack_bot.py:63-82` and at `utils.py:135-154`. `Delivery` models both.

Behaviour of the code that is easy to misread:

- A user with no cooldown entry counts as tagged at time 0 (`user_tag_cooldowns.get(user_id, 0)`). Such a user is therefore in cooldown while `now < 3600`; this is not "never in cooldown".
- When every candidate is in cooldown, `suggest_relevant_users` returns a result whose `users` list is empty, not `None`. It returns `None` when the graph answer is empty and when anything in its body raises; the model covers a failed graph call ("## Left out" lists the rest).
- `INTERESTED_IN`, `MENTIONS` and any other relationship share sort tier 3, so among them only activity orders the candidates.
- A candidate's activity is that of the first row seen for that user; it is not a sum over rows.
- `CHANNEL_TAG_COOLDOWN` is declared but never read.
- `get_cooldown_remaining` truncates with `int()`. With integer time, that truncation is the identity.

## Model

| member | source | states |
|---|---|---|
| Cooldown.Remaining | utils.py:78-83 | The remaining time is never negative. It is positive exactly when the user is in cooldown. It is at most 3600 when the last tag is not in the future. When positive, the last tag time plus 3600 equals now plus the remaining time. |
| Cooldown.Mark | utils.py:73-76 | After marking, the user is in cooldown with exactly 3600 seconds remaining. The key set grows by that user only, and every other entry keeps its timestamp. |
| Cooldown.MarkIdempotent | utils.py:73-76 | Marking twice at the same instant gives the same map as marking once; the remaining time is still 3600. |
| Cooldown.MarkWindow | utils.py:67-83 | A user marked at t is in cooldown at a later `now` iff now < t + 3600. The remaining time is max(0, t + 3600 - now). |
| Cooldown.Swept | utils.py:106-116 | The sweep keeps exactly the entries whose elapsed time is at most 3600, with their timestamps unchanged. |
| Cooldown.ClearExpired | utils.py:106-121 | The loop over a snapshot of the items produces the swept map. It returns the number of expired users, which equals the number of entries removed. |
| Cooldown.SweepRespectsCooldown | utils.py:67-116 | A user in cooldown survives the sweep. A tracked user is removed iff its elapsed time exceeds 3600, so an entry at exactly 3600 is neither in cooldown nor removed. |
| Cooldown.MarkThenExpire | utils.py:73-121 | Once the window after a mark has passed, the user is out of cooldown and the next sweep removes them. Whether any other user survives is unaffected by the mark. |
| Expansion.Terms | utils.py:552-562 | Every term parsed from the reply is non-empty, stripped, and free of both `|` and `,`. |
| Expansion.SplitKeepsChars | utils.py:553-557 | Splitting on one delimiter never introduces a character into a piece, so pieces of a `|`-split contain no `|`. |
| Expansion.FirstOccurrences | utils.py:549-568 | The loop with a `seen` set returns the first-occurrence de-duplication of its input. |
| Expansion.ParseExpansionLoop | utils.py:549-568 | The whole parsing loop, over the reply's terms followed by the canonical topics, equals `ParseExpansion`. |
| Expansion.ExpandTopics | utils.py:536-586 | Every canonical topic is in the result. An empty topic list yields []. A raised call, or a truncated reply with no text, yields the canonical topics unchanged. A complete reply, or a truncated one with text, yields the parse of its stripped text against the canonical list. The result is always the canonical list or a duplicate-free list of canonical topics and parsed terms. |
| Expansion.CanonicalKept | utils.py:564-568 | The parse always contains every canonical topic. |
| Expansion.ExpansionKeepsFirstOccurrenceOrder | utils.py:555-568 | Result order is the order of first occurrence in the reply's terms followed by the canonical topics. |
| Expansion.EchoReplyExpandsToItself | utils.py:545-568 | A complete reply that repeats the single canonical topic expands to that topic alone, with no duplicate. |
| Expansion.TermsOfTerm | utils.py:553-562 | A text that is already a term parses to exactly itself. |
| Consolidation.CanonicalTopic | utils.py:641-646 | A found topic maps to the first canonical topic that is a case-insensitive substring of it or contains it. With no match, it stays as found. |
| Consolidation.TopicEntries | utils.py:638-648 | Each graph row of a found topic becomes one entry carrying that topic's canonical topic, in row order. |
| Consolidation.ConsolidateIds | utils.py:637-658 | Consolidated users appear in the order in which the rows first name them, once each. |
| Consolidation.AbsorbIds | utils.py:648-658 | Absorbing a row adds its user at the end when the user is new; otherwise the id list is unchanged. |
| Consolidation.RecordSummary | utils.py:660-674 | Recording one more row for a user gives the summary of that user's rows extended by it. |
| Consolidation.BestOfSnoc | utils.py:670-674 | A row upgrades the best relationship to expert if it is expert. It upgrades to working-on if it is working-on and the best is not expert. Otherwise the best stays. |
| Consolidation.ConsolidateSpec | utils.py:636-674 | Users appear once each, in first-seen order. Each consolidated user equals the summary of exactly that user's rows. |
| Consolidation.ConsolidateUsersOnce | utils.py:648-658 | No user id appears twice, and every row's user appears. |
| Consolidation.ConsolidateTopics | utils.py:660-662 | A user's topic list has no duplicates. It holds exactly the canonical topics of that user's rows. |
| Consolidation.ConsolidateBest | utils.py:650-674 | The best relationship is expert if any row is expert; otherwise working-on if any row is working-on; otherwise the first row's relationship. Name and activity come from the user's first row. |
| Ranking.Tier | utils.py:679-681 | The tier is 1 exactly for expert and 2 exactly for working-on. Every other relationship is tier 3. |
| Ranking.InsertSorted | utils.py:679-683 | Inserting into a sorted list after every element with a key no greater keeps it sorted. |
| Ranking.InsertStable | utils.py:679-683 | Insertion is a permutation step that appends the new element to the end of its key class. |
| Ranking.SortByKey | utils.py:679-683 | The result is sorted by (tier, activity descending), has the input's length, and contains only input elements. |
| Ranking.SortStable | utils.py:679-683 | The sort is stable: it is sorted, it is a permutation, and for every key it preserves the input order of the candidates with that key. |
| Ranking.SortMultiset | utils.py:679-683 | The sort is a permutation of its input. |
| Ranking.SortWithKey | utils.py:679-683 | For each key, the candidates with that key keep their input order. |
| Ranking.SortSame | utils.py:679-683 | The sort keeps exactly the input's elements. |
| Ranking.SortNoDups | utils.py:679-683 | Sorting a duplicate-free list keeps it duplicate-free. |
| Ranking.KeyLeTotal | utils.py:679-683 | The key order is total and antisymmetric. |
| Ranking.StableSortUnique | utils.py:679-683 | Two sorted lists with the same per-key subsequences are equal. |
| Ranking.StableSortIsSortByKey | utils.py:679-683 | Any stable sort of the input, such as Python's `sorted`, returns exactly `SortByKey`. |
| Ranking.RankOrder | utils.py:679-683 | A higher-ranked candidate has a tier no greater than a lower-ranked one, and within a tier at least the same activity. |
| Suggestion.PyPrefix | utils.py:718 | Python's `s[:k]` is a prefix of s. For k >= 0 its length is min(k, |s|); for negative k it drops the last -k elements. |
| Suggestion.Select | utils.py:678-719 | The chosen users are candidates out of cooldown, in rank order, at most max_suggestions, and duplicate-free when ids are distinct. A free candidate left out ranks no higher than every chosen user. Fewer than max_suggestions are chosen only when every free candidate is chosen. Among candidates with equal rank keys, the chosen ones are the first free ones in first-seen order. |
| Suggestion.PrefixKeyClasses | utils.py:679-702 | A prefix of the free candidates in rank order takes, for every rank key, a prefix of the free candidates with that key in input order: the stable sort keeps ties in the order the graph gave them. |
| Suggestion.FilterSorted | utils.py:687-702 | Filtering by cooldown keeps the survivors in sorted order. |
| Suggestion.PrefixTopK | utils.py:717-719 | Every free candidate not in a prefix of the survivors ranks no higher than each member of that prefix. |
| Suggestion.PrefixComplete | utils.py:717-722 | A prefix shorter than k contains every free candidate. |
| Suggestion.PrefixIds | utils.py:687-719 | A prefix of the survivors has distinct user ids when the candidates do. |
| Suggestion.Suggest | utils.py:606-749 | The result is None iff the graph answer is missing or empty. Otherwise it carries the original topics, and its users are sorted, distinct, at most max_suggestions and out of cooldown. Each user is the consolidation of that user's graph rows, and the user list is exactly the selection from the consolidated candidates of the graph answer. |
| Suggestion.ChosenAreSummaries | utils.py:636-719 | Every chosen user is the consolidation of that user's rows, and no user is chosen twice. |
| Suggestion.TrickleDown | utils.py:687-719 | If a free candidate is left out, exactly k users were chosen, all ranking at least as high as it. |
| Suggestion.ConsolidatedAllBusy | utils.py:687-702 | When every row's user is in cooldown, no consolidated candidate is free. |
| Suggestion.NoFreeRowsNoUsers | utils.py:687-719 | When every row's user is in cooldown, nobody is chosen. |
| Suggestion.EntriesBusy | utils.py:638-648 | Entries carry the answer's rows unchanged, so if every row's user is in cooldown then so is every entry's. |
| Suggestion.AllInCooldownGivesNoUsers | utils.py:717-742 | When the graph answers with a non-empty map whose rows all name users in cooldown, the result is a suggestion with an empty user list, not None. |
| Suggestion.TierBeatsActivitySort | utils.py:679-683 | Experts A (activity 5) and C (2) sort before working-on B (9), and A before C. |
| Suggestion.TierBeatsActivity | utils.py:679-719 | With nobody in cooldown and k = 2, the choice is [A, C]: tier dominates activity. |
| Suggestion.TaggedLeaderMakesRoom | utils.py:687-719 | With A just tagged and k = 2, the choice is [C, B]: the next candidates trickle up. |
| Suggestion.FilterKeepsFree | utils.py:687-702 | The cooldown filter keeps an all-free ranked list unchanged. |
| Suggestion.FilterDropsHead | utils.py:687-702 | The cooldown filter drops a busy leader and keeps the rest in order. |
| Suggestion.NeverTaggedIsFree | utils.py:67-71 | Once an hour has passed since time 0, a user never tagged is not in cooldown. |
| Suggestion.OthersStayFree | utils.py:67-76 | Tagging one user puts no other never-tagged user in cooldown. |
| Gate.ShouldSuggest | utils.py:945-1011 | No topics, or more than 8, gives False. Otherwise a complete reply decides by the strict YES parse, and an empty truncated reply gives False. A raised call decides by the keyword fallback and at most 3 topics. |
| Gate.GuardsIgnoreClassifier | utils.py:945-951 | Under the topic-count guards the classifier's outcome cannot matter: every outcome gives False. |
| Gate.FallbackAdmitsTechPair | utils.py:1002-1011 | On a failed call, ["Machine Learning", "Coffee"] is admitted by the keyword fallback. |
| Gate.FallbackRejectsFourTopics | utils.py:1008 | On a failed call, four topics are rejected whatever their words. |
| ModelCall.YesIsExact | utils.py:985-989 | The parse accepts exactly the replies whose stripped text is "yes" in any letter case. |
| ModelCall.UpperIsYes | utils.py:985-989 | Upper-casing gives "YES" iff lower-casing gives "yes". |
| ModelCall.DecoratedYesIsNo | utils.py:989 | "YES." and "Yes, suggest" are not a yes. |
| ModelCall.PaddedYesIsYes | slack_bot.py:259-260 | Any whitespace around "yes" or "YES" is ignored. |
| Delivery.Pow2 | slack_bot.py:71 | Every back-off wait is at least one second. |
| Delivery.Settles | slack_bot.py:65-79 | The settling attempt is within the budget. Every earlier attempt was rate limited, and the settling attempt itself was not. |
| Delivery.SafeSay | slack_bot.py:63-82 | At most max_retries attempts are made. The result is True iff the first attempt that is not rate limited succeeds within the budget. It stops right after the first other error. The waits are 1, 2, 4, … seconds, one after each rate-limited attempt. |
| Delivery.SettlesAt | slack_bot.py:65-79 | The settling attempt is the first one that is not rate limited. |
| Delivery.SucceedsIff | slack_bot.py:63-82 | The send succeeds iff some attempt within the budget is delivered after nothing but rate limits. |
| Survey.IsRelevantAnswer | slack_bot.py:215-265 | The rejections (stripped length below 3; a short message with a non-answer phrase) come first. Then keyword acceptance for the goals and motivation topics. Then the classifier's strict YES. On a classifier failure, the lenient fallback decides. |
| Survey.ClassifierDecidesOnlyOpenCases | slack_bot.py:217-260 | The classifier matters only for messages that passed the rejections and matched no keyword. |
| Survey.BotTextNotBlank | slack_bot.py:164-168 | The text returned for a successful chat call is never blank. |
| Survey.GetResponse | slack_bot.py:115-213 | Only the caller's entry changes, and it is created when missing. The new entry and the reply are those of one step of the machine, with relevance judged on the question currently open. |
| Survey.StartButton | slack_bot.py:340-385 | The click touches only the caller's entry, and creates it when missing. |
| Survey.TriggerAnswered | slack_bot.py:142-173 | With a question open, a trigger message leaves the state unchanged and gets the chat reply. |
| Survey.TriggerReplyNotBlank | slack_bot.py:156-168 | The reply to a trigger is never blank. |
| Survey.CompletedIsAbsorbing | slack_bot.py:131-133 | A completed survey is left unchanged by every message, which gets the fixed completion text. The button also leaves it unchanged (lines 362-378). |
| Survey.NotStartedWaitsForButton | slack_bot.py:135-137 | Before the button, every message gets the fixed prompt and changes nothing. |
| Survey.ButtonStartsQuestion1 | slack_bot.py:380-385 | On a survey that is not complete, the button sets the first question as not yet asked and keeps answers and history. The trigger it sends changes nothing more. |
| Survey.TriggersKeepState | slack_bot.py:142-173 | Trigger messages never change the state. |
| Survey.ChatOutcome | slack_bot.py:156-213 | With a question open, a failed chat call changes nothing and answers with the error text. A successful one answers with the model's text and appends exactly the user's message and that reply. |
| Survey.Question1Transition | slack_bot.py:176-190 | The step advances to question 2 iff the question was already asked and the answer is relevant. Then `answer1` is the message and question 2 is not yet asked. Otherwise the step and `answer1` stay. Either way the question is marked asked. |
| Survey.Question2Transition | slack_bot.py:192-207 | The survey completes iff question 2 was already asked and the answer is relevant, with `answer2` set to the message. Otherwise the step and `answer2` stay. |
| Survey.FirstReplyAfterButtonIsNotRecorded | slack_bot.py:176-179 | After the button, the user's first real reply only marks question 1 asked and is never recorded as an answer, however relevant. |
| Survey.ButtonRestartsFromQuestion2 | slack_bot.py:380-382 | A click while question 2 is open goes back to question 1 and keeps `answer1`. |
| Survey.RespondAdvancesAtMostOneStep | slack_bot.py:170-207 | A message moves the survey forward by at most one step, never back. The history only grows at its end. |
| Survey.LoggedKeepsConsistency | slack_bot.py:171-173 | Appending a user and an assistant turn keeps the history alternating. |
| Survey.AdvanceKeepsConsistency | slack_bot.py:175-207 | Advancing never reaches question 2 without `answer1`, nor completion without `answer2`. |
| Survey.RespondKeepsConsistency | slack_bot.py:131-213 | One message keeps a consistent entry consistent. |
| Survey.ApplyKeepsConsistency | slack_bot.py:115-385 | A message or a button click keeps every entry consistent. |
| Survey.RunKeepsConsistency | slack_bot.py:115-385 | After any sequence of messages and clicks, every entry is consistent; every completed survey has both answers. |
| Command.AdminListRoundTrip | utils.py:26 | A comma-joined list of comma-free ids admits exactly those ids as administrators. |
| Command.UnsetAdminList | utils.py:26 | With the variable unset, only the empty id is an administrator. |
| Command.ParseArgs | app.py:58-79 | Fewer than 2 words gives invalid arguments, and a mode other than test/all gives invalid mode. Otherwise: table = word 0, mode = word 1 lower-cased, column = word 2 or "SlackID", test mode iff the mode is "test". |
| Command.ParseTriggerCommand | app.py:31-79 | A non-admin gets Access Denied before any parsing. An admin with blank text gets the usage text. Otherwise the stripped text's words are parsed. |
| Command.ThreeArgumentsRoundTrip | app.py:58-79 | "table mode column" with a valid mode triggers with exactly those three values. |
| Command.ParseThree | app.py:68-79 | Three words with a valid mode give a trigger with that table, the lower-cased mode and that column. |
| Command.ThreeWords | app.py:58 | Splitting "a b c" on whitespace gives the three words back. |
| Command.TwoArgumentsUseDefaultColumn | app.py:68-79 | "table mode" uses the column "SlackID". |
| Command.OneArgumentIsInvalid | app.py:60-66 | A single word gives invalid arguments. |
| Topics.Keep | nlp.py:21 | The clean-up keeps at most as many pieces as it is given. Each kept piece is non-empty, stripped and comma-free. |
| Topics.ExtractTopics | nlp.py:20-21 | Every topic is non-empty, stripped and comma-free, and there are at most (number of commas + 1) of them. |
| Topics.SingleTopic | nlp.py:20-21 | A reply with text and no comma is one topic, its stripped text. |
| Topics.BlankReply | nlp.py:20-21 | A whitespace-only reply gives no topics. |
| Topics.ListRoundTrip | nlp.py:20-21 | Joining topics with ", " and parsing gives the same topics back, in order. |
| Topics.KeepCons | nlp.py:21 | The clean-up handles pieces one at a time, in order. |
| Airtable.UserIdOf | airtable_topic_extractor.py:57-58 | The user id is never empty. It is the stripped Slack id when that is non-empty, otherwise "airtable_" followed by the record id. |
| Airtable.GeneratedIdsAreDistinct | airtable_topic_extractor.py:57-58 | Records without a Slack id but with different record ids get different user ids. |
| Airtable.NameDefault | airtable_topic_extractor.py:63 | The name is the Name cell when present, otherwise "Unknown". |
| Airtable.KeptProfilesFilter | airtable_topic_extractor.py:50-67 | The loop's output is the profiles of exactly the records with non-blank InfoText, in input order. |
| Airtable.KeepWithInfo | airtable_topic_extractor.py:50-67 | The filter loop returns the profiles of exactly the records with non-blank InfoText, in input order. |
| Airtable.RecordsWithInfo | airtable_topic_extractor.py:50-76 | A failed fetch gives []. Otherwise the result is the filtered profiles, each with stripped, non-empty InfoText. |
| Airtable.KeptHaveInfo | airtable_topic_extractor.py:53-65 | Every kept profile carries its InfoText stripped and non-empty. |
| Airtable.Contribution | airtable_topic_extractor.py:99-122 | One record contributes one entry carrying its pairs, one with [] when the extractor raised, or two entries with [] when the result could not be unpacked, since the record was appended before the display loop raised and again by the handler. |
| Airtable.ExtractInterests | airtable_topic_extractor.py:90-125 | The output is the records' contributions in order; every entry is an input record, and there are between one and two entries per record. Its length is the number of records plus the number of malformed extractions. With no malformed extraction there is exactly one entry per record, in order, carrying the extracted pairs or [] when the extractor raised. |
| Airtable.ProcessingBounds | airtable_topic_extractor.py:90-125 | The output has between one and two entries per record, and every entry is one of the input records. |
| Airtable.ProcessingLength | airtable_topic_extractor.py:90-125 | Every malformed extraction adds exactly one extra entry to the output. |
| Airtable.ProcessingAligned | airtable_topic_extractor.py:90-125 | Without malformed extractions, entry i is record i with its extracted pairs, or [] when the extractor raised. |
| Airtable.SaveInterests | airtable_topic_extractor.py:143-173 | The saved count is the number of records with pairs whose save succeeded, so saved ≤ records with pairs ≤ records. |
| Airtable.SavedBounds | airtable_topic_extractor.py:143-173 | saved ≤ records with pairs ≤ records. |
| Airtable.AllSaved | airtable_topic_extractor.py:143-163 | When every save succeeds, the count is exactly the number of records with pairs. |
| Airtable.Bump | airtable_topic_extractor.py:159 | Counting one pair increments its type's count, or appends the type with count 1 when new. The total grows by one. |
| Airtable.Counts | airtable_topic_extractor.py:157-159 | The types appear in first-seen order, each with its number of pairs, and the counts sum to the number of pairs. |
| Airtable.CountsStep | airtable_topic_extractor.py:157-159 | One iteration of the counting loop keeps the tally equal to the per-type counts of the pairs seen so far. |

## Left out

- External calls are not modelled; their results are inputs. This covers every OpenAI call (the expansion, gate, survey chat, relevance and topic-extraction calls), the Slack API (`conversations_open`, `chat_postMessage`, `chat_update`, `users_info`, the `say` callbacks), Airtable reads and writes (`get_user_ids_from_table`, `save_answers_to_airtable`, `save_full_conversation_to_airtable`, `notify_users_in_table`), and all of `graph.py` with its Cypher queries.
- `get_relevant_users_for_topics` is not part of this model. Its answer is an arbitrary input, a sequence of (found topic, rows) pairs. Nothing is claimed about its ordering or limits, beyond the `3 * max_suggestions` limit passed to it.
- Consolidation.Entries: the graph answer is a sequence in dict order. Nothing forbids a found topic from repeating, which a Python dict would exclude; the model is only more general there.
- Suggestion.Suggest: the code also returns None when anything else in its body raises (a row missing a key, say); the model yields None only for a failed or empty graph call.
- Locks, the daemon thread in `app.py`, and concurrent access are not modelled; state is threaded sequentially.
- Float `time.time()`, `time.sleep`, and the `datetime` survey timeout in `utils.py` are not modelled. Time is integer seconds, and `safe_say`'s sleeps are recorded as the list of waits.
- Suggestion.Select: one `now` serves the whole cooldown filter, whereas `is_user_in_cooldown` (`utils.py:70`) reads the clock again for each candidate in the loop at `utils.py:692`; a tag that expires during the loop is not modelled.
- `get_cooldown_stats` reports through a float division and is left out.
- Message formatting and prompt text are left out: `format_user_suggestions_with_personality`, `prompts.py`, `bot_prompts.py`.
- Logging and `print_interest_summary` are console output and are left out.
- `test_neo4j.py` is a live-database script and is left out.
- Text.Lower, Text.Upper: these map ASCII letters only. Python's `lower()`/`upper()` also change non-ASCII letters, and the case-insensitive match in `CanonicalTopic` inherits the restriction.
- Topics.ExtractTopics: a reply whose content is `None` raises in Python and is not modelled; the reply is always a string.
- Survey.StartButton: the handler's fallback text for a blank first question is not modelled. The reply it guards against is never blank (`Survey.TriggerReplyNotBlank`).
- Survey.StartButton: the `chat_update` and DM side effects are output only and are left out.
- Airtable.Cell: cells are modelled as strings. A non-string cell, on which `.strip()` would raise, is not modelled.
- Airtable.SaveInterests: the graph write is an input (did it succeed for record i). The per-type counts are computed only for display in the code, and `Airtable.Counts` models them.
