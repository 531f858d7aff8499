# Terminology bot glossary, modelled in Dafny

This project models the core of the wiki-framework terminology bot. The bot
is a Telegram bot that builds a glossary of terms.

- The glossary itself is a store of terms, each with a part-of-speech tag, a
  description and three media references, plus two symmetric pair tables:
  synonyms and similar words.
- A chat dialogue moves through eleven states. In it the user adds terms, picks
  one from a numbered listing and edits its attributes.
- A serialiser turns a term's attributes into a MediaWiki page.

Every operation is a pure function, or a method with loops, over immutable data:

| file | module | models |
|---|---|---|
| `wrappers.dfy` | `Wrappers` | `Option` and `Result` |
| `text.dfy` | `Text` | the `str` operations the bot uses: ASCII `lower()`, `split(',')`, `strip(' ')`, `int()` and `str()` on decimal numerals |
| `database.dfy` | `Database` | `POSEnum`, the `Term` row, and its `term[key]` / `term[key] = value` accessors |
| `term_collection.dfy` | `TermCollection` | `TermCollection`: `get_terms`, `get`, `create`, `update`, `add_synonyms_similars`, `get_synonyms`, `get_similars` |
| `bot.dfy` | `Bot` | the state numbers, the handler table registered by `run`, every state handler, and `get_term_profile` |
| `wiki_service.dfy` | `WikiService` | `make_text` |

How the store and the session are modelled:

- **The store.** `Store` holds the `terms` table as a sequence in storage order,
  and each pair table as a set of id pairs. The pair tables use their two
  columns as the primary key, so a pair occurs at most once. The store also
  holds the next value of the id sequence. `get_terms()` is that
  sequence of terms.
- **Failing calls.** A call whose Python code raises inside its database
  session returns `Failure`, and the caller keeps the store it had. The session
  is closed without a commit, so nothing is written.
- **Relationships.** `Term` declares no `synonyms`/`similars` relationship
  attributes. `term.synonyms.append(x)` is modelled as the relationship it
  evidently stands for: adding the pair to the `synonyms` pair table
  (`terminology_bot/database.py:43-54`). The reads `term.synonyms` and
  `term.similars` in `get_synonyms`/`get_similars` hit the same missing
  attributes. As written they raise `AttributeError`; the model answers them
  from the pair tables (`TermCollection.Related`).
- **Unique names.** The `unique=True` declaration on `name` is a predicate,
  `TermCollection.UniqueNames`, not an enforced constraint. The lemmas show
  which operations keep it. `update` can break it (`UpdateCanDuplicateNames`).
  The ambiguity branch of `add_synonyms_similars` exists for the case where
  names repeat.
- **The session.** A session is the store, the conversation state (`Idle`, or
  one of the eleven phases) and the current term. A message with no handler,
  or whose handler raises, leaves the session as it was. The dispatcher keeps
  the previous state when a callback raises.
- **Messages.** An incoming message is text, a `/command`, a photo, an audio or
  a video. `Filters.text` accepts non-empty text that is not a command.
  `CommandHandler` compares the command word case-insensitively. A regex
  anchored with `$` also accepts the text followed by one final newline.

Behaviour the model follows:

- **Media file names.** A media handler stores the logical name
  `image_`/`audio_`/`video_` followed by the term's name.
- **The listing.** The bot keeps no copy of the listing it showed: the typed
  number indexes the store's terms. The bot discards the candidate list that
  `add_synonyms_similars` returns.
- **Index `0`.** In the corrected `choose_term`, the typed number `k` picks
  `terms[k - 1]` from the store's terms in storage order, as `get_terms()` lists
  them. Within one conversation that is the listing that was shown. A typed `0`
  becomes index `-1`. On a Python list that is the last term, so the model
  picks the last term, and fails only when no term is stored
  (`Bot.ChooseTermZero`).

The three defects under "## Findings" are modelled twice: as written
(`Bot.StepAsWritten`, `Bot.EditAsWritten`, `TermCollection.UpdateAsWritten`), and as evidently
intended. The rest of the model uses the intended version (`Bot.Step`).

## Model

| member | source | states |
|---|---|---|
| Text.Lower | terminology_bot/term_collection.py:20 | lower-casing keeps the length and maps every character through ASCII lower-casing |
| Text.LowerIdempotent | terminology_bot/term_collection.py:20 | lower-casing an already lower-cased name changes nothing |
| Text.Split | terminology_bot/bot.py:250 | `text.split(',')` yields one piece more than there are commas, and no piece contains a comma |
| Text.JoinSplit | terminology_bot/bot.py:250 | joining the pieces with the separator gives back the original text |
| Text.SplitJoin | terminology_bot/bot.py:250 | splitting a join of comma-free pieces gives back exactly those pieces |
| Text.Strip | terminology_bot/bot.py:250 | `strip(' ')` returns an infix with only spaces removed on either side, and the result starts and ends with a non-space |
| Text.StripOfStripped | terminology_bot/bot.py:250 | a piece without surrounding spaces is its own strip |
| Text.Words | terminology_bot/bot.py:250 | the word list has comma count plus one entries, none containing a comma or surrounded by spaces, and word `k` is comma piece `k` with only the spaces around it removed |
| Text.TrimmedUnique | terminology_bot/bot.py:250 | a piece has only one infix that drops just spaces at its ends and has none left there, so each word is fixed by its piece |
| Text.TrimmedEmpty | terminology_bot/bot.py:250 | a piece trims to the empty word exactly when it is all spaces |
| Text.TrimmedPosition | terminology_bot/bot.py:250 | a non-empty trimmed word runs from the piece's first to its last non-space character |
| Text.WordsOfJoin | terminology_bot/bot.py:266 | words typed separated by commas are read back as exactly that list, in order |
| Text.Digits | terminology_bot/bot.py:82 | the listing number `str(n)` is a decimal numeral without a leading zero |
| Text.NumeralRoundTrip | terminology_bot/bot.py:97 | `int(str(n)) == n`: typing the number shown selects that number |
| Text.LeadingZero | terminology_bot/bot.py:97 | a leading zero does not change the value `int` reads |
| Database.ParsePos | terminology_bot/database.py:19-22 | a string gives a tag exactly when it is that tag's member name (`noun`, `verb`, `adjective`) |
| Database.GetItem | terminology_bot/database.py:36-37 | every item read is a value its column can hold: no string in the enum column, no tag in a text column |
| Database.SetItem | terminology_bot/database.py:39-40 | after `t[k] = v`, `t[k]` reads `v`; every other item, the id and the name are unchanged |
| Database.SetItemOfGetItem | terminology_bot/database.py:36-40 | writing back the value just read leaves the term unchanged |
| Database.TermExtensional | terminology_bot/database.py:25-34 | a term is determined by its id, its name and its five items |
| Database.BlankIsNull | terminology_bot/database.py:30-34 | `Term(name=...)` reads null on every nullable item |
| Database.ColumnValue | terminology_bot/database.py:30 | a string stored in the enum column becomes the tag of that name, and there is no value for any other string; a text column stores the string itself |
| TermCollection.Named | terminology_bot/term_collection.py:71 | the name query returns stored terms of that name and no others, and it is non-empty exactly when the `exists()` query holds |
| TermCollection.NamedCount | terminology_bot/term_collection.py:71-73 | each stored term of the name is listed exactly as often as it is stored and no other term is listed, so `len(s_word_list)` counts the matching rows |
| TermCollection.NamedOfExtension | terminology_bot/term_collection.py:64-71 | terms appended later without a new term of a stored name leave that name's matches as they were |
| TermCollection.IndexOf | terminology_bot/term_collection.py:30 | `filter(Term.id == id).first()` finds the first term with that id, or reports that none has it |
| TermCollection.Get | terminology_bot/term_collection.py:14-17 | `get` returns a stored term with that id, and `None` exactly when no term has it |
| TermCollection.GetAt | terminology_bot/database.py:28 | with ids as primary key, `get` of any stored term's id returns that term |
| TermCollection.GetSynonyms | terminology_bot/term_collection.py:92-96 | fails exactly when the term is missing; otherwise lists each stored term paired with it in the synonyms table as often as it is stored, and no other term |
| TermCollection.GetSimilars | terminology_bot/term_collection.py:98-102 | the same, over the similar-words table, with each related term listed as often as it is stored |
| TermCollection.Related | terminology_bot/term_collection.py:92-102 | `term.synonyms` / `term.similars`, answered from the pair table: a term is listed exactly when it is stored and paired with the id, as often as it is stored |
| TermCollection.RelatedAppend | terminology_bot/term_collection.py:92-102 | the related terms of two stretches of storage are those of the first followed by those of the second, so the listing keeps storage order |
| TermCollection.RelatedSymmetric | terminology_bot/term_collection.py:92-102 | in a valid store, `u` is a synonym (similar word) of `t` exactly when `t` is one of `u` |
| TermCollection.Insert | terminology_bot/term_collection.py:25 | `add(Term(name=...))`. No contract of its own: `InsertCounts` and `InsertValid` state that it appends one blank term with the next id of the sequence and keeps the store valid |
| TermCollection.InsertCounts | terminology_bot/term_collection.py:25 | adding a term keeps the existing terms as a prefix and adds one to the count of its name only |
| TermCollection.InsertValid | terminology_bot/database.py:28 | a term with the next sequence id keeps ids unique and pair tables well formed, and adds exactly that id |
| TermCollection.Create | terminology_bot/term_collection.py:19-26 | afterwards the lower-cased name is stored. A term is inserted (blank, with the next id) exactly when none had the name; otherwise the store is unchanged. Existing terms and both pair tables never change |
| TermCollection.CreateIdempotent | terminology_bot/term_collection.py:19-26 | creating a name twice has the effect of creating it once |
| TermCollection.CreateValid | terminology_bot/term_collection.py:19-26 | create keeps the store valid and loses no id |
| TermCollection.CreateKeepsNamesUnique | terminology_bot/term_collection.py:23-26 | if names were unique before, they are unique after create |
| TermCollection.AddVariant | terminology_bot/term_collection.py:34-36 | the insertion branch of `update`. No contract of its own: `UpdateKey` states that the appended term has the edited term's name, the next id and only that item set |
| TermCollection.SetInPlace | terminology_bot/term_collection.py:38 | `term[key] = val`. No contract of its own: `UpdateKey` states that only that item of that term changes |
| TermCollection.UpdateKey | terminology_bot/term_collection.py:33-38 | a stored truthy value different from the new one leaves the term untouched and appends a new term with the same name and only that item set. Otherwise the item is written in place and nothing else changes |
| TermCollection.UpdateKeyValid | terminology_bot/term_collection.py:33-38 | either branch keeps the store valid and loses no id |
| TermCollection.UpdateFrom | terminology_bot/term_collection.py:32-40 | the dictionary loop fails exactly when some value is not valid for its column. On success, other terms and the pair tables are unchanged, and every added term carries the edited term's name |
| TermCollection.UpdateFromOtherItem | terminology_bot/term_collection.py:32-40 | an item no key of the dictionary names keeps its value in the edited term |
| TermCollection.UpdateFromStores | terminology_bot/term_collection.py:32-40 | with distinct keys, every value of the dictionary ends up stored: in the edited term, or in an appended term of the same name |
| TermCollection.UpdateStores | terminology_bot/term_collection.py:28-40 | with distinct keys, a successful non-empty `update` stores every value of the dictionary, in the term with that id or in an appended term of its name |
| TermCollection.UpdateOneKey | terminology_bot/term_collection.py:28-40 | `update` of an existing term with one valid item is exactly one write of that value: in place, or as an appended term when the stored value is a different truthy one |
| TermCollection.Update | terminology_bot/term_collection.py:28-40 | `update` fails exactly when the dictionary is non-empty and the term is missing or a value is invalid. On success, only the term with that id may change, ids and names stay, only same-name terms are added, and the pair tables are untouched |
| TermCollection.UpdateFromValid | terminology_bot/term_collection.py:32-40 | the dictionary loop keeps the store valid and loses no id |
| TermCollection.UpdateValid | terminology_bot/term_collection.py:28-40 | a successful update keeps the store valid and loses no id |
| TermCollection.UpdateFromInPlace | terminology_bot/term_collection.py:37-38 | when each item is unset, empty or equal to its new value, the loop succeeds and adds no term |
| TermCollection.UpdateInPlaceAddsNoTerm | terminology_bot/term_collection.py:33-38 | update with values equal to the stored ones, or onto unset or empty items, succeeds and adds no term |
| TermCollection.UpdateCanDuplicateNames | terminology_bot/term_collection.py:33-36 | a store with unique names, updated with a different description, holds two terms of the same name |
| TermCollection.UpdateAsWritten | terminology_bot/term_collection.py:28-40 | `update` of one item, comparing the stored value with the string as the source does. No contract of its own: `UpdateAsWrittenOnText` and `PosTagResubmitAsWritten` relate it to `Update` |
| TermCollection.UpdateAsWrittenOnText | terminology_bot/term_collection.py:33 | on the text columns, the comparison as written is the comparison of values |
| TermCollection.PosTagResubmitAsWritten | terminology_bot/term_collection.py:33 | as written, choosing a term's current tag again inserts a second term; comparing values leaves the store unchanged |
| TermCollection.Link | terminology_bot/term_collection.py:54-60 | one pair of `append` calls on the relationship. No contract of its own: `LinkAdds` and `LinkValid` state that exactly the pair, both ways, enters the named table, and nothing when the table name is not recognised |
| TermCollection.LinkAdds | terminology_bot/term_collection.py:76-82 | one link adds both directions to the requested table only, and nothing for an unrecognised table name |
| TermCollection.LinkValid | terminology_bot/database.py:43-54 | linking two stored terms keeps both pair tables within the stored ids and symmetric |
| TermCollection.LowerAll | terminology_bot/term_collection.py:62 | every word is lower-cased, position for position |
| TermCollection.ResolveWord | terminology_bot/term_collection.py:64-82 | one pass of the word loop. No contract of its own: `ResolveWordEffect` and `ResolveWordValid` state its effect |
| TermCollection.ResolveWords | terminology_bot/term_collection.py:62-82 | the word loop. No contract of its own: `ResolveWordsTerms`, `ResolveWordsKeepsMatches`, `ResolveWordsCandidates`, `ResolveWordsLinks`, `ResolveWordsValid` and `ResolveWordsSucceeds` state its effect |
| TermCollection.ResolveWordEffect | terminology_bot/term_collection.py:64-82 | one word: its name is stored afterwards and added exactly when it was missing. Several matches are returned as candidates; a single match is linked both ways |
| TermCollection.ResolveWordValid | terminology_bot/term_collection.py:64-82 | one word keeps the store valid and loses no id |
| TermCollection.ResolveWordsTerms | terminology_bot/term_collection.py:64-71 | the word loop appends only, and adds one term of each name that some word carries and no term had; a repeated word is inserted once |
| TermCollection.ResolveWordsKeepsMatches | terminology_bot/term_collection.py:64-71 | later words never change the matches of a name already stored |
| TermCollection.ResolveWordsCandidates | terminology_bot/term_collection.py:73-74 | the collected candidates are all matches of every ambiguous word, in word order |
| TermCollection.ResolveWordsLinks | terminology_bot/term_collection.py:76-82 | the word loop links the term, both ways, with exactly the single matches of the words |
| TermCollection.ResolveWordsValid | terminology_bot/term_collection.py:62-84 | the word loop keeps the store valid and loses no id |
| TermCollection.ResolveWordsSucceeds | terminology_bot/term_collection.py:76-82 | the loop cannot fail when the term exists or the table name is not recognised |
| TermCollection.CandidatesEmpty | terminology_bot/term_collection.py:86-90 | no candidate is collected exactly when no word has more than one match |
| TermCollection.AddWordsCreatesEachWordOnce | terminology_bot/term_collection.py:62-71 | without clarification ids, the call succeeds and every lower-cased word names a term afterwards. A name is added once exactly when a word carries it and no term had it; existing terms are kept |
| TermCollection.AddWordsLinksUniqueMatches | terminology_bot/term_collection.py:73-82 | the recognised table gains exactly the two-way links to the single matches of the words; the other table, and both for an unrecognised name, gain nothing |
| TermCollection.AddWordsOtherLinksNothing | terminology_bot/term_collection.py:62-84 | with a table name other than `synonyms` or `similars` the call still succeeds and creates every word, and neither pair table changes |
| TermCollection.AddWordsLinkIsSymmetric | terminology_bot/term_collection.py:76-82 | a word with exactly one match is linked with the term in both directions |
| TermCollection.AddWordsReturnsCandidates | terminology_bot/term_collection.py:73-90 | the result is `None` exactly when no word is ambiguous, and otherwise all candidates in word order |
| TermCollection.AddWordsKeepsNamesUnique | terminology_bot/term_collection.py:64-90 | with unique names before, names stay unique and the call returns `None` |
| TermCollection.LinkChosen | terminology_bot/term_collection.py:50-60 | the clarification loop. No contract of its own: `LinkChosenEffect`, `ClarificationLinksChosen` and `ClarificationIdempotent` state its effect |
| TermCollection.AddSynonymsSimilars | terminology_bot/term_collection.py:42-90 | the whole call. No contract of its own: the `AddWords...` and `Clarification...` lemmas and `AddSynonymsSimilarsValid` state its effect on both paths and what it returns |
| TermCollection.LinkChosenEffect | terminology_bot/term_collection.py:52-60 | the clarification loop succeeds exactly when there is nothing to link, the table is unrecognised, or the term and every chosen id exist. It then adds exactly the two-way links to the chosen ids and creates no term |
| TermCollection.ClarificationLinksChosen | terminology_bot/term_collection.py:50-60 | with clarification ids: fails exactly when a recognised table meets a missing term or id. On success it creates no term, returns `None`, and links the term both ways with every chosen id (nothing for an unrecognised table) |
| TermCollection.ClarificationIdempotent | terminology_bot/term_collection.py:50-60 | repeating the same clarification changes nothing more |
| TermCollection.AddSynonymsSimilarsValid | terminology_bot/term_collection.py:42-90 | every successful call keeps the store valid and loses no id |
| Bot.Code | terminology_bot/bot.py:20-21 | every state is numbered within `range(11)` |
| Bot.FromCode | terminology_bot/bot.py:20-21 | an integer stands for a state exactly when it lies in `range(11)` (so `END`, -1, stands for none), and numbering that state gives the integer back |
| Bot.CodeRoundTrip | terminology_bot/bot.py:20-21 | reading back a state's number gives the state |
| Bot.NumeralOf | terminology_bot/bot.py:307 | what `^[0-9]+$` accepts is a numeral, possibly followed by a newline that `int()` ignores; only that final newline is dropped |
| Bot.Route | terminology_bot/bot.py:300-361 | without a conversation only `/start` is heard. In a conversation `/cancel` always reaches the fallback, and only `/cancel` does. `choose_menu_option` is reached only in CHOOSE_OPTION and the seven editing states |
| Bot.StateHandler | terminology_bot/bot.py:303-358 | the handler lists of the states, tried in order. No contract of its own: `Route`'s contract and the per-state lemmas (`StartMenuOnlyLabels`, `MenuLabelsMap`, `PosOtherTextIgnored`, `MediaRoute`, `RelateRoute`) state what each state hears |
| Bot.Run | terminology_bot/bot.py:37-292 | the callbacks. No contract of its own: `RunKeepsGood`, `RunEdit`, `MediaRun`, `RelateRun` and the per-state lemmas state each callback's effect |
| Bot.StepIn | terminology_bot/bot.py:300-361 | the `ConversationHandler` dispatch of one message. No contract of its own: `StepThrough` states that a routed message has its handler's effect and a raising handler leaves the session |
| Bot.Step | terminology_bot/bot.py:300-361 | one message to the bot as intended. No contract of its own: `StepKeepsGood` and the per-state lemmas state its effect |
| Bot.IsCommand | terminology_bot/bot.py:301 | `CommandHandler`. No contract of its own: `StartEntersStartMenu`, `CancelEnds` and `TermsCommand` state what the commands do |
| Bot.Plain | terminology_bot/bot.py:309 | `Filters.text`. No contract of its own: `NewTermCreates`, `DescriptionOneUpdate` and `RelateRoute` state what plain text does |
| Bot.FullMatch | terminology_bot/bot.py:304-305 | an anchored regex with `$`. No contract of its own: `StartMenuOnlyLabels` states which texts START_MENU hears |
| Bot.NumeralLine | terminology_bot/bot.py:307 | `^[0-9]+$`. No contract of its own: `NumeralOf` states what the pattern accepts |
| Bot.MenuPrefixed | terminology_bot/bot.py:312 | the menu pattern without `$`. No contract of its own: `MenuLabelsMap` and `MenuOtherTextStays` state what a prefixed text does |
| Bot.PosTagLine | terminology_bot/bot.py:318 | the tag pattern. No contract of its own: `PosTagOneUpdate` and `PosOtherTextIgnored` state what a tag name and other text do |
| Bot.Choose | terminology_bot/bot.py:90-114 | `choose_term` once the number is read. No contract of its own: `ChooseTermSelectsListed`, `ChooseTermOutOfRange`, `ChooseTermZero` and `ChooseKeepsGood` state its effect |
| Bot.Edit | terminology_bot/bot.py:163-189 | `pos_tag` and `description`. No contract of its own: `EditSucceeds`, `RunEdit` and `EditKeepsGood` state its effect |
| Bot.EditAsWritten | terminology_bot/bot.py:163-175 | `pos_tag` with `update` as written. No contract of its own: `TermCollection.PosTagResubmitAsWritten` states what that `update` does |
| Bot.Upload | terminology_bot/bot.py:191-241 | the media handlers. No contract of its own: `MediaRun`, `MediaStoresName`, `MediaWritesOnce` and `UploadKeepsGood` state its effect |
| Bot.Relate | terminology_bot/bot.py:243-273 | `synonyms` and `similars`. No contract of its own: `RelateThrough`, `RelateAlwaysReturns`, `SynonymsLinkUniqueMatch` and `RelateKeepsGood` state its effect |
| Bot.PyIndex | terminology_bot/bot.py:98 | list indexing succeeds exactly for `-len <= i < len`, returns an element of the list, and `xs[i]` for a non-negative index |
| Bot.LabelPhase | terminology_bot/bot.py:116-161 | a text has a target state exactly when it is one of the seven menu labels, and each label maps to its own state |
| Bot.InitialGood | terminology_bot/bot.py:31-35 | the starting session satisfies the session invariant |
| Bot.StepKeepsGood | terminology_bot/bot.py:300-361 | every message keeps the store valid, the current term stored, and a current term present in every state after a choice; no id is ever lost |
| Bot.RunKeepsGood | terminology_bot/bot.py:37-292 | every handler that returns keeps the session invariant and loses no id |
| Bot.UploadKeepsGood | terminology_bot/bot.py:191-241 | the media handlers keep the session invariant |
| Bot.ChooseKeepsGood | terminology_bot/bot.py:90-114 | choosing a term selects a stored term |
| Bot.EditKeepsGood | terminology_bot/bot.py:163-189 | an attribute edit keeps the store valid and returns to CHOOSE_OPTION with the same current term |
| Bot.RelateKeepsGood | terminology_bot/bot.py:243-273 | the synonym and similar-word handlers keep the store valid and return to CHOOSE_OPTION with the same current term |
| Bot.StartEntersStartMenu | terminology_bot/bot.py:37-44 | without a conversation, `/start` opens START_MENU and every other message is ignored |
| Bot.StartMenuOnlyLabels | terminology_bot/bot.py:304-305 | in START_MENU only the two exact labels move the state (to NEW_TERM and CHOOSE_TERM), `/cancel` ends, anything else changes nothing, and the store is untouched |
| Bot.NewTermCreates | terminology_bot/bot.py:54-69 | in NEW_TERM any text is created as a term and the state returns to START_MENU; the lower-cased name is then stored |
| Bot.ChooseTermSelectsListed | terminology_bot/bot.py:90-109 | typing the number `k` shown next to the k-th listed term makes it the current term and opens CHOOSE_OPTION |
| Bot.ChooseTermOutOfRange | terminology_bot/bot.py:111-114 | a number beyond the listing keeps CHOOSE_TERM and the current term |
| Bot.ChooseTermZero | terminology_bot/bot.py:97-98 | `0` selects the last listed term, and with no term stored changes nothing |
| Bot.MenuLabelsMap | terminology_bot/bot.py:116-158 | each of the seven exact labels leads to its own state, with store and current term unchanged |
| Bot.MenuOtherTextStays | terminology_bot/bot.py:160-161 | a text that only starts with a label, or `/menu` from an editing state, leads to CHOOSE_OPTION |
| Bot.PosTagOneUpdate | terminology_bot/bot.py:163-175 | in POS an exact tag name makes one successful `update` of the current term's tag, which writes that tag (in place or as an appended term of the name), and returns to CHOOSE_OPTION |
| Bot.PosOtherTextIgnored | terminology_bot/bot.py:317-318 | in POS a text that is not exactly a tag name changes nothing |
| Bot.DescriptionOneUpdate | terminology_bot/bot.py:177-189 | in DESCRIPTION any text makes one successful `update` of the description, which writes that text, and returns to CHOOSE_OPTION |
| Bot.MediaStoresName | terminology_bot/bot.py:191-241 | the photo, audio and video handlers store `image_`/`audio_`/`video_` plus the term's name in the matching column and return to CHOOSE_OPTION |
| Bot.MediaWritesOnce | terminology_bot/bot.py:191-241 | the media handler's `update` is exactly one write of `image_`/`audio_`/`video_` plus the term's name into the term's matching item, in place or as an appended term of that name |
| Bot.MediaRoute | terminology_bot/bot.py:341-357 | IMAGE, AUDIO and VIDEO each hand a photo, an audio file or a video to their own handler |
| Bot.MediaRun | terminology_bot/bot.py:191-241 | each media handler stores under its own column, with its own file-name prefix |
| Bot.RunEdit | terminology_bot/bot.py:163-189 | the tag and description handlers pass the message text unchanged to `update`, under `pos_tag` and `description` respectively |
| Bot.EditSucceeds | terminology_bot/bot.py:163-241 | an update of the stored current term with a value its column accepts succeeds, is exactly one write of that value into the term's item, and returns to CHOOSE_OPTION with the same current term |
| Bot.RelateRoute | terminology_bot/bot.py:329-339 | in SYNONYMS and SIMILARS any plain text goes to that state's own handler |
| Bot.RelateThrough | terminology_bot/bot.py:243-273 | in SYNONYMS or SIMILARS a plain text reaches `add_synonyms_similars` with the table name its handler passes. The call returns, and the state moves to CHOOSE_OPTION with the store it leaves |
| Bot.RelateAlwaysReturns | terminology_bot/bot.py:243-273 | the word list has comma count plus one entries; the store call succeeds and the state returns to CHOOSE_OPTION, its result discarded |
| Bot.SynonymsLinkUniqueMatch | terminology_bot/bot.py:243-257 | after a list of synonyms, every word with exactly one match is linked with the current term in both directions |
| Bot.CancelEnds | terminology_bot/bot.py:281-292 | `/cancel` ends the conversation from every state, keeping store and current term |
| Bot.TermsCommand | terminology_bot/bot.py:311-357 | `/terms` leads to CHOOSE_TERM from CHOOSE_OPTION and the editing states, and is ignored in START_MENU, NEW_TERM and CHOOSE_TERM |
| Bot.ChooseTermAsWrittenStalls | terminology_bot/bot.py:96-98 | as written every numeral in CHOOSE_TERM leaves the session as it was |
| Bot.SynonymsAsWrittenLinkNothing | terminology_bot/bot.py:254 | as written a list of synonyms or similar words creates the words and returns to CHOOSE_OPTION, but links nothing |
| Bot.Profile | terminology_bot/bot.py:371-381 | the profile is empty exactly when there is neither a tag nor a non-empty description. It opens with the tag line when a tag is set, ends with the description line when there is one, every line ends with a newline, and nothing else is printed: the length is the sum of the two lines' |
| WikiService.Rendered | wikiapi/service.py:18-46 | the page `make_text` writes. No contract of its own: `MakeText` proves the method equals it, and the `Page...` and `...InOrder` lemmas state its contents |
| WikiService.TextBlock | wikiapi/service.py:30-35 | the text sections. No contract of its own: `TextLoop` and `TextSectionsInOrder` state its contents |
| WikiService.MediaBlock | wikiapi/service.py:37-45 | the media sections and uploads. No contract of its own: `MediaLoop`, `MediaBlockUploads` and `MediaSectionsInOrder` state its contents |
| WikiService.MediaFlag | wikiapi/service.py:22-28 | the flag is set exactly when some key is a lower-case media key |
| WikiService.TextLoop | wikiapi/service.py:31-35 | the loop appends the four text sections in order |
| WikiService.MediaLoop | wikiapi/service.py:39-45 | the loop renders and uploads the three media sections in order, failing at the first one that holds text |
| WikiService.FailureSticks | wikiapi/service.py:39-45 | once a media section has failed, later sections change nothing |
| WikiService.MakeText | wikiapi/service.py:18-46 | `make_text` produces the page independently of the order in which the dictionary yields its keys |
| WikiService.PageStartsWithName | wikiapi/service.py:30 | the page begins with `**pagename**` and a newline |
| WikiService.TextSectionsInOrder | wikiapi/service.py:31-35 | Description, Part of speech, Synonyms and Similar words come in that order, each as `==Sec==`, value and newline, only when its key is present |
| WikiService.MediaBlockUploads | wikiapi/service.py:39-45 | the media block fails exactly when a present media section holds text; otherwise it uploads every present file once, in section order |
| WikiService.PageUploads | wikiapi/service.py:37-45 | the page fails exactly when the media block is on and a media section holds text; the uploads are the present media files when the block is on, none otherwise |
| WikiService.NoMediaKeyNoMediaBlock | wikiapi/service.py:22-26 | without a lower-case media key the page is the header and the four text sections, and nothing is uploaded, whatever capitalised media sections exist |
| WikiService.MediaHeadingIffKey | wikiapi/service.py:37-38 | `==Media==` follows the text sections exactly when some key is lower-case `audio`, `photo` or `video` |
| WikiService.MediaSectionsInOrder | wikiapi/service.py:39-45 | Photo, Audio and Video come in that order, each as `===Sec===` and a `[[File:...]]` link carrying its file name and description, only when present |
| WikiService.OnlyRelevantKeysMatter | wikiapi/service.py:22-46 | two dictionaries that agree on the seven section keys and the three media keys give the same page |
| WikiService.AdditionalKeysIgnored | wikiapi/service.py:27-28 | the `synonyms` and `similar_words` keys behind the unused flag change nothing |

## Left out

- Telegram transport: the updater, polling, keyboards, reply texts,
  logging, `bot.get_file` and the download are I/O. They are left out.
  Only the state change and the store calls are modelled.
- SHA-1 file naming in the media handlers is a foreign hash of a
  string. Only the logical name stored in the column is modelled.
- `self.cur_term` is one attribute shared by all users of the bot. The model
  is a single conversation, so interleaved users are not modelled.
- The numbered listing text of `list_of_terms_option` is not modelled. `Term`
  defines no `__str__`, so that text is a default object representation.
- `get_terms` returns rows in an order SQL does not fix. The model lists
  the terms in storage (insertion) order.
- `SQLAlchemyDBConnection`, `create_tables`, `seed_tables` and the
  connection string are plumbing. An in-memory store replaces the database.
- `String(256)` length limits are not enforced.
- TermCollection.Link: the pair tables are sets, so linking a pair that is
  already stored, or a term with itself (both `append` calls write the same
  pair), adds nothing. The relationship is not declared in the source; a
  list-backed relationship over the two-column primary key would insert the
  pair again and fail at commit. `TermCollection.ClarificationIdempotent`
  rests on this set reading.
- The `unique=True` constraint on `name` is not enforced. If it were,
  `update`'s insertion branch (`TermCollection.UpdateCanDuplicateNames`) would
  fail at commit.
- The id sequence advancing on a rolled-back insert is not modelled.
- `lower()` is ASCII-only: Unicode case mapping is not modelled.
- A command addressed to another bot (`/start@otherbot`) is not
  distinguished from one addressed to this bot.
- `terminology_bot/config.py` only reads an ini file, so it is left out.
- `wikiapi/api.py`, `api/api.py`, and `get_site`/`upload` in
  `wikiapi/service.py` are MediaWiki network and file I/O. Uploading is
  modelled as the log of file names passed to `upload`, in call order.
- `wikiapi/page.py` is unfinished and is not part of this model.
- WikiService.MakeText: `str()` of a media dictionary in a text section is
  rendered as its two-key `repr`. Python's escaping of quotes inside the
  strings is not modelled, and a media dictionary without a `description`
  key (a `KeyError`) is not representable.
- Bot.Profile: the tag line prints the enum member as `POSEnum.<name>`. That
  is `str()` of a plain `enum.Enum` member; the reply text around the
  profile is not modelled.

## Findings

| source | as written | input that shows it | evidently intended | confidence | as-written member | corrected member |
|---|---|---|---|---|---|---|
| terminology_bot/bot.py:98 | `self.term_collection[index]` subscripts a `TermCollection`, which has no `__getitem__`. The `TypeError` is not caught, so the state stays CHOOSE_TERM | any numeral, e.g. `1`, typed in CHOOSE_TERM with terms stored | index the listing of `get_terms()` | high, not executed | Bot.ChooseTermAsWrittenStalls | Bot.ChooseTermSelectsListed |
| terminology_bot/bot.py:254 | the synonym and similar-word handlers pass `table='syn'` and `'sim'`, but `add_synonyms_similars` recognises only `'synonyms'` and `'similars'`, so nothing is linked | `cat` typed in SYNONYMS for a stored term, where `cat` is a term or a new word | pass `'synonyms'` and `'similars'` | high, not executed | Bot.SynonymsAsWrittenLinkNothing | Bot.SynonymsLinkUniqueMatch |
| terminology_bot/term_collection.py:33 | `term[key] != val` compares the stored `POSEnum` member with the string the bot passes. They are never equal, so choosing a term's current tag again inserts a second term of that name (with the `unique=True` constraint, which the model does not enforce, see "## Left out", that insertion fails at commit instead) | a term tagged `noun`, then `noun` chosen in POS | compare the stored value with the value the string denotes | medium, not executed | TermCollection.PosTagResubmitAsWritten | TermCollection.UpdateInPlaceAddsNoTerm |
