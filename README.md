# Translate bot: a Dafny model of its core

The bot watches the channels enrolled with `/translate`. It
translates every message to English through an external program and posts
`Translated: …` back to the same channel, unless the message:

- comes from the bot itself,
- is made only of emoji,
- contains a banned word, or
- translates to something too close to the original.

Two slash commands manage the state:

- `/translate` enrols up to three channels per server.
- `/banword add|remove` maintains the banned-word list.

Both lists are kept in two tables (`channels`, `wordban`). In-memory caches
(`translateChannels`, `bannedWords`) are reloaded after every change.

The model has these modules:

- `GoStrings` holds the pieces of Go's `strings` and `unicode` packages the bot uses: `IsSpace`, `ToLower`, `TrimSpace`, `Fields`, `Split` and `Join`. A string is the sequence of its runes.
- `Similarity` models `areTextsSimilar`: a specification predicate, the loop as a method proved against it, and its properties.
- `Emoji` models `isOnlyEmoji` and `isEmoji` over Unicode general categories.
- `BannedWordFilter` models `containsBannedWord`.
- `Channels` holds:
  - the `channels` table and the `translateChannels` index,
  - the slot-wise upsert of `addTranslateChannels`,
  - `isTranslateChannel`,
  - the reply of `/translate`.
- `BanWords` covers the word normalisation, the list of words `/banword add` inserts and reports, and the replies.
- `Bot` holds the class `BotState`. Its fields are the two tables and the two caches. `Valid()` says both caches equal what their tables hold. The constructor, `addTranslateChannels` and the three command handlers keep `Valid()`. The loaders and `InsertWords`, the insertion loop of `/banword add`, are steps inside them. The two ban-word handlers also keep the stored words non-empty and normalised (`BanWords.WellFormedWords`).
- `Pipeline` models `messageCreate` as a function of the message, the index and the banned set. It reports the gateway calls made and the verdict: which gate stopped the message, or what was posted.

Three consequences of the code are worth knowing:

- **Unset slots.** Unset slots are read as `""`, so the empty channel ID counts as enrolled once any server has an unset slot (`Channels.EmptyIdMatchesUnsetSlot`).
- **Enrollment is global.** The enrollment lookup searches every server's slots, whichever server the message came from (`Pipeline.ServerIsIgnored`).
- **No permission check.** `/translate` and `/banword` are registered without a required member permission, and their handlers never look at who is calling. Any member who can use slash commands can enrol channels and add or remove banned words. The model's handlers take no caller for the same reason.

## Model

| member | source | states |
|---|---|---|
| GoStrings.LowerRune | main.go:498 | lower-casing a rune keeps it a space or a non-space, and leaves no ASCII capital |
| GoStrings.IsSpace | main.go:538-539 | `unicode.IsSpace`, the classifier behind `strings.TrimSpace` and `strings.Fields`: exactly the Latin-1 spaces and the other White_Space code points, listed one by one |
| GoStrings.ToLower | main.go:498 | `strings.ToLower`: each rune is lowered by `LowerRune`, so length and white space are kept (its properties: `ToLowerIdempotent`, `TrimSpaceLowerCommute`; also used at main.go:307, 362 and 531-532) |
| GoStrings.TrimSpace | main.go:531-532 | the result is the input with a run of leading and a run of trailing white space cut off, and neither of its ends is white space |
| GoStrings.Fields | main.go:538-539 | every field is non-empty and holds no white space |
| GoStrings.FieldsAreMaximalRuns | main.go:498 | a word is among the fields of a text exactly when it is a maximal non-space run of that text |
| GoStrings.FieldsInTextOrder | main.go:538-539 | the fields, glued back together, are the text with its white space removed |
| GoStrings.FieldsSplitAtSpace | main.go:538-539 | cutting a text at a white-space rune gives the fields of the left part followed by those of the right part; with `FieldsOfWord` this fixes the fields of every text, in order and in number |
| GoStrings.FieldsOfSpaceStart | main.go:538-539 | leading white space contributes no field |
| GoStrings.FieldsOfWord | main.go:538-539 | a lone non-empty word without white space is its only field |
| GoStrings.FieldsOfWordThenSpace | main.go:538-539 | a word followed by white space is the first field, followed by the fields of the rest |
| GoStrings.Split | main.go:304 | splitting on a separator gives at least one piece, and no piece holds the separator |
| GoStrings.Join | main.go:347 | `strings.Join`: no parts give the empty text, otherwise the result starts with the first part (its partner: `JoinSplit`; used by `BanWords.AddReply`) |
| GoStrings.JoinSplit | main.go:304 | joining the pieces of a split with the separator gives back the original text |
| GoStrings.ToLowerIdempotent | main.go:498 | lower-casing twice is lower-casing once |
| GoStrings.TrimSpaceIdempotent | main.go:307 | trimming twice is trimming once |
| GoStrings.TrimSpaceLowerCommute | main.go:307 | trim-then-lower (similarity check) and lower-then-trim (ban-word commands) give the same text |
| Similarity.Normalize | main.go:531-532 | both texts are trimmed, then lower-cased (its properties: `NormalizeIdempotent`, `GoStrings.TrimSpaceLowerCommute`) |
| Similarity.TextsSimilar | main.go:534-551 | what `areTextsSimilar` decides: equal after normalisation, or at most two mismatching positions (its meaning: `NotSimilarIff`) |
| Similarity.AreTextsSimilar | main.go:530-552 | the method's answer is exactly the similarity predicate: equal after trimming and lower-casing, or at most two mismatching positions |
| Similarity.FewMismatches | main.go:541-551 | the early-exit counting loop answers true exactly when at most two original positions mismatch |
| Similarity.MismatchesMonotone | main.go:541-549 | the mismatch counter never decreases as the loop advances, so stopping at the third mismatch is sound |
| Similarity.MismatchCountIsCardinality | main.go:541-549 | the counter equals the number of original positions with a missing or different translated token |
| Similarity.NotSimilarIff | main.go:530-552 | texts are judged different exactly when they differ after normalisation and more than two positions mismatch |
| Similarity.NormalizeIdempotent | main.go:531-532 | normalising a normalised text changes nothing |
| Similarity.SimilarityIgnoresCaseAndPadding | main.go:531-536 | case and surrounding space never matter; every text is similar to itself |
| Similarity.ShortOriginalAlwaysSimilar | main.go:541-551 | an original of at most two tokens is similar to any translation |
| Similarity.TrailingTokensNeverCounted | main.go:542-543 | translated tokens past the end of the original are never counted |
| Similarity.ThreeMismatches | main.go:542-547 | three differing positions out of three give a count of three |
| Similarity.OneSubstitutionIsSimilar | main.go:530-552 | "a b c" against "a b d" is similar (one mismatch) |
| Similarity.ThreeSubstitutionsAreNotSimilar | main.go:530-552 | "a b c" against "x y z" is not similar (three mismatches) |
| Emoji.IsOnlyEmoji | main.go:554-561 | true exactly when every rune is an emoji rune; the empty text qualifies |
| Emoji.IsEmoji | main.go:563-565 | a rune counts as emoji when it is a symbol, an other symbol or a non-spacing mark (reduced to five categories by `EmojiCategories`) |
| Emoji.EmojiCategories | main.go:563-565 | a rune is an emoji rune exactly when its category is Sm, Sc, Sk, So or Mn |
| Emoji.LetterOrNumberIsNotOnlyEmoji | main.go:554-565 | a text holding a letter, a digit or a blank is never emoji-only |
| Emoji.OnlyEmojiConcat | main.go:554-561 | a concatenation is emoji-only exactly when both parts are |
| BannedWordFilter.AnyBanned | main.go:499-504 | the early-return loop answers true exactly when some token is in the banned set |
| BannedWordFilter.ContainsBannedWord | main.go:497-505 | the lower-cased text is split into fields and looked up in the banned set (its meaning: `ContainsBannedWordIff`) |
| BannedWordFilter.ContainsBannedWordIff | main.go:497-505 | a message is caught exactly when some maximal non-space run of its lower-cased text is a banned word |
| BannedWordFilter.BannedWordIgnoresCase | main.go:498 | lower-casing the message first changes nothing |
| BannedWordFilter.BannedWordMonotone | main.go:497-505 | a larger banned set catches every message a smaller one catches |
| BannedWordFilter.PunctuatedWordIsNotCaught | main.go:497-505 | "word." is not caught by the banned word "word" |
| Channels.Upsert | main.go:433-458 | the server gets a row; supplied slots are overwritten, the others keep their stored value (NULL for a new row); other servers are unchanged |
| Channels.ExistingRow | main.go:434-438 | the stored row of the server, or three NULLs when it has none |
| Channels.Merge | main.go:440-451 | each supplied slot replaces the stored one, each missing slot keeps it (stated for the table by `Upsert`) |
| Channels.Project | main.go:125-147 | the index has exactly one entry per stored server, and each slot holds the stored channel ID, or `""` where the column is NULL |
| Channels.IsTranslateChannel | main.go:486-495 | the nested loop with early return answers true exactly when some server's entry holds the channel |
| Channels.EnrolledIffStored | main.go:486-495 | a non-empty channel ID is enrolled exactly when some server stores it in one of its slots |
| Channels.EmptyIdMatchesUnsetSlot | main.go:139-143 | a stored NULL slot makes the empty channel ID enrolled |
| Channels.UpsertEnrollsSupplied | main.go:440-455 | after an upsert every supplied channel is enrolled |
| Channels.UpsertIdempotent | main.go:433-458 | writing the same channels twice is writing them once |
| Channels.SequentialUpsertsKeepEarlierSlots | main.go:433-458 | enrolling slot 1 and then slot 2 keeps both channels and the stored slot 3 |
| Channels.PickedIds | main.go:232-242 | a slot is supplied exactly when its option was picked, with the picked channel's ID |
| Channels.Confirmation | main.go:265-280 | the reply built clause by clause, " and" before all but the first (its meaning: `ConfirmationJoinsPickedChannels`) |
| Channels.ConfirmationJoinsPickedChannels | main.go:265-280 | the reply names each picked slot's channel in slot order, joined by " and" |
| BanWords.NormalizeWordIdempotent | main.go:307 | normalising a normalised word changes nothing |
| BanWords.NormalizeWord | main.go:307 | a word is lower-cased, then trimmed, as both ban-word commands do (main.go:362 too) |
| BanWords.NormalizedAt | main.go:306-307 | each normalised word is the normal form of the piece at the same position |
| BanWords.AddedWords | main.go:305-334 | the words the add loop reports for a request (its meaning: `AddedWordsExactly`, `AddedWordsDistinct`, `AddedWordsInInputOrder`) |
| BanWords.AddedWordsExactly | main.go:306-335 | the reported words are exactly the non-empty normalised words not stored before the command |
| BanWords.AddedWordsDistinct | main.go:306-335 | no word is reported twice |
| BanWords.AddedWordsInInputOrder | main.go:306-335 | words are reported in input order: a longer request's report extends a shorter one's |
| BanWords.AddStep | main.go:308-334 | one loop turn inserts and reports the word exactly when it is non-empty and not yet stored |
| BanWords.NothingAddedIff | main.go:337-357 | nothing is reported exactly when every candidate was already stored, and then the table is unchanged |
| BanWords.AddKeepsWellFormed | main.go:302-335 | adding keeps every stored word non-empty and in normal form |
| BanWords.NormalizePaddedCapitals | main.go:307 | " Foo " normalises to "foo" |
| BanWords.AddExample | main.go:302-357 | pieces normalising to x, y, "", x add x and y once each, in that order |
| BanWords.AddReply | main.go:337-357 | the reply lists the added words joined by ", ", or says no new words were added |
| Bot.BotState.LoadBannedWords | main.go:106-123 | the cache becomes exactly the stored word set |
| Bot.BotState.LoadTranslateChannels | main.go:125-147 | the index becomes exactly the projection of the stored rows, NULL read as "" |
| Bot.BotState.constructor | main.go:37-45 | start-up loads both caches from the tables, so `Valid()` holds from the start |
| Bot.BotState.AddTranslateChannels | main.go:433-458 | on success the table becomes the slot-wise upsert; on a failed read or write it is unchanged and the error is returned; the cache always matches the table |
| Bot.BotState.HandleTranslateCommand | main.go:231-287 | no channel picked: error reply, nothing changes; store error: failure reply, table unchanged; otherwise the table is upserted, every picked channel is enrolled and the reply names them |
| Bot.BotState.InsertWords | main.go:306-335 | the table gains exactly the non-empty words, and the report is the new words in order |
| Bot.BotState.HandleBanwordAdd | main.go:302-357 | the table gains the request's non-empty normalised pieces, the cache matches it, and the reply lists the newly added words or says none were added; a well-formed word list stays well formed |
| Bot.BotState.HandleBanwordRemove | main.go:360-395 | an empty normalised word is refused with the table unchanged; otherwise that word is deleted, the cache reloaded and the reply names it; a well-formed word list stays well formed |
| Pipeline.MessageCreate | main.go:460-484 | the gateway is called once exactly when the four gates pass; a post happens exactly when translation succeeds and the text is not similar, and it goes to the message's channel with the "Translated: " prefix |
| Pipeline.VerdictNamesFirstFailingGate | main.go:460-481 | each verdict holds exactly when every earlier gate passed and that gate failed |
| Pipeline.GatewayFailurePostsNothing | main.go:473-477 | a gateway error posts nothing and carries the gateway's reason |
| Pipeline.ServerIsIgnored | main.go:461 | the message's server plays no part in the outcome |
| Pipeline.MoreBannedWordsOnlySuppress | main.go:469-471 | banning more words either leaves the outcome as it was or stops the message as banned |
| Pipeline.AddedWordIsFiltered | main.go:469-471 | once `/banword add` stored a word, a message holding it as a token reaches no gateway and posts nothing |
| Pipeline.NotEnrolledNeverReachesGateway | main.go:461-463 | a message in a channel nobody enrolled never reaches the gateway |
| Pipeline.EmojiMessageIsNotTranslated | main.go:465-467 | two So emoji in an enrolled channel are stopped without a gateway call |
| Pipeline.AdmittedWhen | main.go:461-471 | a message from someone else, in an enrolled channel, starting with a letter and with no banned token, passes the four gates |
| Pipeline.AdmittedOutcome | main.go:473-483 | an admitted message with a successful translation is posted exactly when the translation is not similar |
| Pipeline.ForeignMessageIsPosted | main.go:460-484 | "bonjour le monde" translated as "hello the world" is posted as "Translated: hello the world" in the same channel |
| Pipeline.EnglishMessageIsSuppressed | main.go:460-484 | "hello world" translated as itself is stopped as too similar after one gateway call |

## Left out

- GoStrings.LowerRune: maps only ASCII and Latin-1 capitals to lower case, because the full Unicode case tables of `unicode.ToLower` are not reproduced; other runes are left unchanged.
- Emoji.IsOnlyEmoji: the Unicode category tables behind `unicode.Is` are not reproduced, so the category of each rune is a parameter (`categoryOf`).
- Decoding UTF-8 into runes (including invalid bytes becoming U+FFFD) is not modelled; a string is already its sequence of runes.
- `translateToEnglish` runs an external program chosen by an environment variable. It is a parameter `translate` that answers with a text or an error, so the result trimming and error wording are not modelled.
- Discord plumbing is not modelled: the session, command registration, option parsing by name, `InteractionRespond`, `ChannelMessageSend`, and `main` with its start-up and shutdown. The replies are returned as strings.
- SQL specifics are not modelled, including `createTables` and the `channel_id4`/`channel_id5` columns, which are declared but never read or written. Each table is a map or set field.
- Channel mentions are a plain string carried with each picked channel; their formatting is not modelled.
- Bot.BotState.AddTranslateChannels: when the write succeeds but reloading the index fails, the source returns that error after the table has changed; this partial-failure path is not modelled.
- Bot.BotState.HandleBanwordAdd: failures of the per-word COUNT query and INSERT, which reply with an error after earlier words were already inserted, are not modelled. A reload failure ends the process (`log.Fatalf`), which is not modelled either.
- Bot.BotState.HandleBanwordAdd: all pieces are normalised before the insertion loop, not inside it. Normalising reads nothing from the table, so the loop sees the same words in the same order.
- Bot.BotState.HandleBanwordRemove: a failing DELETE and a failing reload (`log.Fatalf`) are not modelled.
- `handleBanwordListCommand` (main.go:397-431) only reads the table and joins it for display; it is not modelled.
- Concurrency between the message handler and the command handlers, and the lack of locking around the shared caches, are not modelled. Each handler runs to completion on the state it finds.
