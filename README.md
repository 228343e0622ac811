# feedprefixer in Dafny

A verified model of the core of `feedprefixer.py`. This is a bot that reads a
news account's timeline and re-posts each headline to its own account. On the
way it prefixes some nouns with "cyber": "I love my cat" becomes
"I love my cybercat".

The model has three modules.

- `Strings` (`strings.dfy`) models the two Python string builtins the transform uses:
  - the substring test `pat in s` (`Contains`);
  - the first-occurrence replacement `s.replace(pat, rep, 1)` (`ReplaceFirst`).

  Both are built on a leftmost search, `FindFrom`. Lemmas connect each of them to the
  plain definition of an occurrence (`OccursAt`, `Occurs`).
- `Transform` (`transform.dfy`) models `cyberify_string` and `is_replaceable`.
  - The part-of-speech tagger is a foreign library, so its output is an input here: a
    sequence of `TaggedWord(surface, tag)`.
  - `CyberifyString` is the source's loop. It reassigns the working text word by word
    and is proved equal to the function `Cyberify`.
  - `Cyberify` is defined through `Substituted`, the text once the loop has
    visited the first n positions.
  - The transform's exception is modelled as the result type `Outcome`:
    `Ok(text)` or `NotProcessed(reason)`.
- `Engine` (`engine.dfy`) models the class `FeedPrefixer`.
  - Its fields: the account names, the state-file name, the dry-run flag, the tagger, the
    texts posted so far (`published`) and the contents of the state file (`state`).
  - Its methods: `RunOnce`, `RunSince`, `Process`, `Tweet`, `LoadSinceId` and `SaveSinceId`.
  - The predicates `IsRetweet` and `IsAtMention` model `is_retweet` and `is_at_mention`.
  - Each method states its new state in terms of the functions `Publication`, `Outputs`,
    `OldestFirst`, `NextCursor` and `Written`, and lemmas state what those mean.
  - The timeline fetch is a parameter `fetch: int -> seq<Post>`. It maps a since id to
    the statuses the server returns for it, newest first.
  - The clock is a parameter `now: real`.
- `Scenarios` (`scenarios.dfy`) works four headlines and one batch through the model.

`Cyberify` is a function of the headline and its tagging. So the transform is
deterministic by construction, and no lemma is needed for that.

Four behaviours of the code are worth stating plainly.

- **Dry-run save.** `save_since_id` opens the state file for writing
  (feedprefixer.py:63) before it tests the dry-run flag. So a dry-run save empties
  the file, although the log line at feedprefixer.py:70 says only that nothing is saved.
  - The model's `Written(id, now, true)` is `Truncated`.
  - `SaveLoadRoundTrip` shows that the next load cannot read it back.
- **First word.** Index 0 is never eligible (`NoAdjacentEligible`). So in
  "dogs are great" the noun "dogs" is never tried, and the headline is rejected with
  "no changes to make" (`Scenarios.FirstWordIsNotPrefixed`).
- **"No changes".** The comment at feedprefixer.py:197 speaks of a replacement not
  being made. The test at feedprefixer.py:198, though, is whether "cyber" is absent
  from the result. So a headline that already holds "cyber" is accepted unchanged
  (`AlreadyPrefixedSucceeds`).
- **First occurrence.** The rewrite replaces the first " w" anywhere in the text,
  which need not be the tagged word itself.
  - "catalog" is prefixed in place of "cat" (`Scenarios.FirstOccurrenceMayMissTaggedWord`).
  - Eligibility keeps neighbouring positions from both being tried, but the text can
    still end up with two neighbouring prefixed words (`Scenarios.NeighboursMayBothBePrefixed`).
  - A headline that starts with a space can have its first word prefixed.

  Statements about eligibility are about positions of the tagging, not about the
  output text.

## Model

| member | source | states |
|---|---|---|
| Strings.FindFromExactly | feedprefixer.py:190 | the search returns the leftmost occurrence at or after `from`; no earlier index matches; it returns nothing exactly when no index at or after `from` matches |
| Strings.ContainsExactly | feedprefixer.py:198 | the substring test `"cyber" in headline` holds exactly when the pattern occurs somewhere in the text |
| Strings.ReplaceFirstExactly | feedprefixer.py:190 | `replace(pat, rep, 1)` leaves the text alone when `pat` is absent. Otherwise it cuts out the leftmost occurrence and puts `rep` there: the length changes by `|rep| - |pat|` and `rep` occurs in the result |
| Transform.CyberifyString | feedprefixer.py:178-201 | the loop from index 1 with its two rejections computes `Cyberify`: the length check first, then the "cyber" check |
| Transform.IsReplaceable | feedprefixer.py:203-209 | definition: the tag is NN or NNS and the surface's first character is a lower-case letter (the uncalled `.isalpha` adds no condition) |
| Transform.NotReplaceableNeverTried | feedprefixer.py:189-209 | a word that carries a non-noun tag or starts with anything but a lower-case letter, everywhere it occurs in the tagging, is never among the words tried |
| Transform.NoAdjacentEligible | feedprefixer.py:181-189 | index 0 is never eligible, and two neighbouring indices are never both eligible |
| Transform.SubstitutionFollowsTagging | feedprefixer.py:181-190 | which words are tried depends only on the tagging: the loop's text is the headline with the eligible words' rewrites applied in order |
| Transform.EligibleWordsExactly | feedprefixer.py:185-189 | a word is tried exactly when some index i ≥ 1 carries it, is replaceable, and follows a non-replaceable word |
| Transform.PrefixGrowth | feedprefixer.py:190 | one rewrite grows the text by exactly five characters and leaves "cyber" in it, or changes nothing when " w" is absent |
| Transform.SubstitutedLength | feedprefixer.py:181-190 | after the loop the length is the headline's plus five per rewrite that took effect, and at most one rewrite takes effect per eligible index |
| Transform.UnchangedWithoutHits | feedprefixer.py:181-190 | the text is the headline itself exactly when no rewrite took effect |
| Transform.MarkerAfterSubstitution | feedprefixer.py:181-198 | the loop's text holds "cyber" exactly when the headline did or some rewrite took effect |
| Transform.SuccessIsShortAndPrefixed | feedprefixer.py:194-201 | an accepted text has at most 140 characters, holds "cyber", and is the headline grown by 5·k for some k up to the number of eligible words |
| Transform.TooLongCheckedFirst | feedprefixer.py:194-195 | "tweet is too long" is the answer exactly when the rewritten text exceeds 140 characters, whether or not it holds "cyber" |
| Transform.NoChangesExactly | feedprefixer.py:197-199 | "no changes to make" is the answer exactly when the headline fits, no rewrite took effect and the headline lacked "cyber" |
| Transform.OnlyTwoReasons | feedprefixer.py:194-199 | a rejection always carries one of the two reasons |
| Transform.AlreadyPrefixedSucceeds | feedprefixer.py:197-201 | a headline that fits and already holds "cyber" is accepted unchanged when no rewrite takes effect |
| Engine.FeedPrefixer.constructor | feedprefixer.py:28-41 | the object keeps the account names, the state-file name and the dry-run flag; nothing has been posted yet |
| Engine.IsRetweet | feedprefixer.py:104-105 | definition: the status's retweet flag, standing for `hasattr(status, 'retweeted_status')` |
| Engine.IsAtMention | feedprefixer.py:107-111 | definition: the status's mention list is non-empty, standing for a non-empty `entities['user_mentions']` |
| Engine.Publication | feedprefixer.py:145-160 | definition: nothing for a retweet or an @mention, nothing for a rejected transform, else the transformed text |
| Engine.FeedPrefixer.LoadSinceId | feedprefixer.py:54-59 | returns `Loaded` of the file: its since id when it holds a saved record, nothing for an absent or emptied file |
| Engine.FeedPrefixer.SaveSinceId | feedprefixer.py:61-72 | the file is emptied and then, unless in dry run, holds the new since id and the time |
| Engine.FeedPrefixer.Tweet | feedprefixer.py:116-122 | in dry run nothing is posted; otherwise exactly the message is appended to what was posted |
| Engine.FeedPrefixer.Process | feedprefixer.py:145-160 | posts the status's `Publication`, if it has one, unless in dry run; nothing else is posted |
| Engine.FeedPrefixer.RunSince | feedprefixer.py:124-143 | returns the since id for an empty fetch and otherwise the id of the first (newest) status fetched. Outside dry run it posts exactly `Outputs` of the fetched statuses oldest first; in dry run nothing |
| Engine.FeedPrefixer.RunOnce | feedprefixer.py:43-52 | fails and changes nothing when the cursor cannot be loaded. Otherwise it posts as `RunSince` does and saves the new cursor only when it differs from the loaded one |
| Engine.OldestFirstAt | feedprefixer.py:140 | `reversed` keeps the length and puts the k-th status from the end at position k |
| Engine.ProcessedOldestFirst | feedprefixer.py:140-143 | a newest-first timeline is processed in increasing id order, and the last status processed carries the returned cursor |
| Engine.CursorIsNewest | feedprefixer.py:136-143 | the cursor is at least every fetched id. When the server returns only newer ids, the cursor never moves back, and it moves exactly when something was fetched |
| Engine.OutputsAppend | feedprefixer.py:140-141 | the texts posted for two consecutive batches are those of each batch in order |
| Engine.OutputsExactly | feedprefixer.py:140-160 | a text is posted exactly when some processed status yields it |
| Engine.OutputsLength | feedprefixer.py:145-160 | each status yields at most one post |
| Engine.PublishedTextsValid | feedprefixer.py:145-160 | every posted text has at most 140 characters and holds "cyber" |
| Engine.SkippedBatchTweetsNothing | feedprefixer.py:147-152 | a batch of retweets and @mentions posts nothing |
| Engine.SaveLoadRoundTrip | feedprefixer.py:54-72 | a real save is read back by the next load; a dry-run save leaves a file the next load cannot read |
| Scenarios.FirstWordIsNotPrefixed | feedprefixer.py:185-199 | "dogs are great", with the noun first, is rejected with "no changes to make" |
| Scenarios.NounIsPrefixed | feedprefixer.py:189-201 | "I love my cat" becomes "I love my cybercat" |
| Scenarios.FirstOccurrenceMayMissTaggedWord | feedprefixer.py:189-190 | in "dog catalog and cat" the eligible "cat" rewrites the first " cat", the one inside "catalog", giving "dog cybercatalog and cat" |
| Scenarios.NeighboursMayBothBePrefixed | feedprefixer.py:181-190 | in "x dog cat y cat" only indices 1 and 4 are eligible, yet the result "x cyberdog cybercat y cat" has two neighbouring prefixed words: the second rewrite hits the " cat" at index 2 |
| Scenarios.SkippedBatchStillAdvances | feedprefixer.py:136-160 | a retweet and a rejected headline post nothing, and the cursor still moves to the newest id |

## Left out

- The Twitter client is network I/O through a foreign library. This covers `new_client`, `test_connection`, `lookup_account_by_username`, `statuses_cursor` and `source_tweets_since` with their pagination, and `update_status`. The timeline becomes the `fetch` parameter, and posting becomes an append to `published`.
- The check at construction that both accounts exist is a network call, so the constructor does not model it.
- The part-of-speech tagger is a foreign library. It is the `tagger` field, and the transform takes its output as an input.
- JSON encoding, `open` and the clock are file I/O and time. The state file is the `state` field with three shapes (absent, emptied, saved record), and the time is the `now` parameter.
- A state file holding JSON without a `since_id` key is not modelled. The model has no shape for such a file.
- Exceptions other than the transform's rejection, such as a failed post or an unreadable file mid-run, are not modelled. The one exception modelled is the failed load at the start of `run_once`, as `RunOnce` returning false.
- Logging, the `secrets` module, the module-level `DEFAULT_FEEDPREFIXER` object and the commented-out delete routine are outside the core, so they are not modelled.
- The module-level `DRY_RUN` constant is a constructor parameter, so both settings can be reasoned about.
- Transform.IsLower: models `str.islower()` on ASCII letters only. Unicode case data is not available in Dafny.
- A tagged word's surface is non-empty by its type, `Surface`, for every word. The source would fail only on an empty surface tagged NN or NNS, since the `and` at feedprefixer.py:205 looks at the first character only after the tag test.
- `cyberify` (the method wrapper around `cyberify_string`) is folded into `Process`, which calls `CyberifyString` on the status text directly.
- Resuming correctly across runs needs the server to return only statuses newer than the since id. `CursorIsNewest` takes that as a precondition and does not model the server.
