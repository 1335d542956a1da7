# Flashcard bot: vocabulary store and quiz rules

A Dafny model of the core of a Telegram flashcard bot. The bot keeps three tables:

- `users`: one row per Telegram id, with the id unique. Questions register the chat's id;
  adding and deleting words register the sender's id;
- `words`: the shared catalog of (word, translate) pairs, with a unique word;
- `user_words`: each user's own copies of pairs, with no uniqueness constraint.

It deals multiple-choice questions from a user's pairs and checks the answers.

`query.dfy` (module `Query`) models the `filter(...).first()` lookup and row counting.
`database.dfy` (module `Database`) holds the tables as sequence fields of the class `Store`.
Its methods are the store operations: get-or-create a user, link the catalog to a user,
add a catalog word, copy the catalog to a user, add and delete a user's word, and pick a
random pair. Each one is an atomic update of the tables. Pure specification functions
(`Link`, `CopyRows`, `RemoveFirst`) describe the resulting tables, and lemmas state what the
operations promise. `bot.dfy` (module `Bot`) models the quiz rules:

- the hint formatters;
- the per-chat step table and the global keyboard, as fields of the class `BotState`;
- the assembly of a question's keyboard (`BuildOptions`, `CreateCards`);
- the answer check with its strike loop (`MessageReply`);
- the double delete of the delete-word flow.

Randomness is a nondeterministic choice. The random pair is any row of the user. The
sample is any three distinct positions of the distractor pool. The shuffle is any
permutation.

The model follows the code where the code differs from the intended design:

- `user_words` has no uniqueness constraint. Copying the catalog to a user adds one row per
  catalog entry without a check, so a user can hold two rows for the same word
  (`CopyDuplicates`, `CopyAfterLinkDuplicates`). Linking does check, and keeps a user's rows
  duplicate-free (`LinkKeepsNoDuplicates`).
- The expected answer of a question is the pair's translation and the prompt is the word.
  The distractor pool keeps the catalog translations that differ from the prompt word, not
  from the answer. The answer can therefore be drawn as a distractor (`AnswerInOwnPool`,
  with `AnswerCanBeDistractor` as an example).
- Sampling three distractors from a pool of fewer than three raises an error that the code
  does not catch. It is the `SampleFailed` outcome.
- Dealing a question fills a local keyboard that shadows the global one. The global keyboard,
  which answer replies extend and strike, therefore only ever holds command labels, struck or
  not (`BotState.Valid`, `StrikeKeepsCommandLabels`).
- In a private chat, where the chat id equals the sender's id, deleting a catalog word does
  not last: the question dealt right after the delete links the catalog to the same user
  again (`DeleteThenRelinkRestores`).
- In a group chat, adding and deleting act on the sender's rows, while questions are dealt
  from the chat's own rows. The delete then lasts for the sender and never changes the quiz
  (`GroupDeleteLasts`). Words the sender adds likewise go to the sender's rows, which
  the group's questions do not read.

## Model

| member | source | states |
|---|---|---|
| `Query.First` | database.py:98 | the index of the first row that passes the filter, and None exactly when no row passes |
| `Database.Store.constructor` | database.py:31-50 | the three tables start empty and satisfy their constraints |
| `Database.Store.GetUserByTelegramId` | database.py:59-65 | returns the registered user with that Telegram id and changes nothing, or appends exactly one new user with that id and a fresh key; Telegram ids stay unique |
| `Database.Store.LinkUserWithBaseWords` | database.py:68-73 | the loop leaves `user_words` equal to `Link` of the old rows and the catalog; other tables unchanged, constraints kept |
| `Database.LinkAppendsCopies` | database.py:68-73 | linking keeps every existing row in place and only appends rows of the linked user that copy a catalog (word, translate) pair; other users' rows are untouched |
| `Database.LinkCovers` | database.py:68-73 | after linking, the user has a row for every catalog word |
| `Database.LinkIdempotent` | database.py:68-73 | linking a second time inserts nothing |
| `Database.LinkKeepsNoDuplicates` | database.py:70-72 | if the user had no two rows for a word before linking, they have none after |
| `Database.Store.AddWord` | database.py:81-86 | appends the pair to the catalog exactly when no catalog row has that word; otherwise the catalog, including the existing translation, is unchanged |
| `Database.UniqueWordsCount` | database.py:41 | in a catalog with unique words, each word occurs in at most one row |
| `Database.AddWordTwice` | database.py:81-86 | adding a word keeps catalog words unique and leaves exactly one row for it; adding it again, with any translation, changes nothing |
| `Database.Store.CopyWordsToUserWords` | database.py:89-93 | the loop appends one copy of every catalog pair for the user, so `user_words` grows by exactly the catalog size, without any check |
| `Database.CopyDuplicates` | database.py:89-93 | copying to a user who already has a catalog word leaves at least two rows of that user for it |
| `Database.CopyAfterLinkDuplicates` | database.py:68-93 | copying right after linking a non-empty catalog always breaks per-user uniqueness |
| `Database.Store.AddWordForUser` | database.py:96-103 | registers the user if needed; returns true and appends exactly the (user, word, translate) row iff the user had no row for the word, otherwise returns false with `user_words` unchanged |
| `Database.RemoveFirst` | database.py:108-113 | with no matching row the rows are unchanged; otherwise exactly the first matching row is removed and every other row is kept |
| `Database.Store.DeleteWordForUser` | database.py:106-116 | registers the user if needed; returns true iff the user had a row for the word, and removes exactly the first such row; with false, `user_words` is unchanged |
| `Database.RemoveFirstCounts` | database.py:106-116 | a delete lowers the user's count of rows for the word by one and leaves every other (user, word) count unchanged |
| `Database.Store.GetRandomPair` | database.py:119-129 | registers the user if needed; returns None iff the user has no rows, otherwise the (word, translate) of one of the user's rows; a user it has just registered gets None |
| `Bot.ShowTarget` | main.py:31-32 | the line is the prompt word, then " -> ", then the expected answer, each in full; `ShowTargetParses` proves it reads back into the two |
| `Bot.ShowHint` | main.py:27-28 | joining no lines gives the empty text; otherwise the hint starts with its first line |
| `Bot.ShowHintSplits` | main.py:27-28 | the hint is its lines joined by newlines: splitting it at newlines gives the lines back |
| `Bot.ShowTargetParses` | main.py:31-32 | the "prompt -> answer" line reads back, at its first arrow, into the prompt word and the expected answer, whenever the prompt word holds no '>' |
| `Bot.BotState.constructor` | main.py:22-24 | no known users, an empty step table and an empty global keyboard |
| `Bot.BotState.GetUserStep` | main.py:47-54 | a known chat's stored step is returned and nothing changes; an unknown chat gets step 0, is appended to the known users, and 0 is returned |
| `Bot.Candidates` | main.py:78 | the distractor pool holds one entry per catalog row whose translation differs from the prompt word: each other translation occurs as often as catalog rows carry it, the prompt word never, and its length is the number of such rows |
| `Bot.AnswerInOwnPool` | main.py:73-78 | a catalog pair's translation is in the pool of its own question whenever it differs from the word |
| `Bot.BuildOptions` | main.py:73-88 | fails iff the pool has fewer than three entries; otherwise the answer is the pair's translation, the prompt its word, and the three distractors come from distinct positions of the pool; the first four buttons are a permutation of the answer and the distractors, followed by NEXT, ADD_WORD, DELETE_WORD |
| `Bot.AnswerCanBeDistractor` | main.py:73-79 | with the example catalog, the question for "Лес" can carry "Forest", its own answer, as a distractor |
| `Bot.CreateCards` | main.py:65-101 | registers the user and links the catalog to them; no question iff the user has no rows; a dealt question is built by `BuildOptions` from one of the user's rows; sampling fails only for a pool under three |
| `Bot.Strike` | main.py:171-174 | same length; with no button reading the answer nothing changes; otherwise only the first such button changes, gaining the strike mark |
| `Bot.StrikeKeepsCommandLabels` | main.py:171-174 | striking a keyboard of command labels leaves a keyboard of command labels |
| `Bot.BotState.MessageReply` | main.py:157-177 | the answer is correct iff it equals the stored answer exactly; a correct answer appends NEXT, ADD_WORD, DELETE_WORD to the global keyboard, a wrong one strikes the first button reading it; the hint text of each case |
| `Bot.DeleteWordFromDb` | main.py:118-125 | the reported outcome is the first delete's result; after a success a second delete removes the next matching row, if any; after a failure `user_words` is unchanged (an unknown user is still registered) |
| `Bot.DoubleDeleteCount` | main.py:121-125 | of n rows of the user for the word, max(n - 2, 0) remain |
| `Bot.DeleteThenRelinkRestores` | main.py:118-126 | in a private chat (chat id equal to the sender's id), after the deletes the linking done by the next question gives the user a row for a deleted catalog word again |
| `Database.LinkKeepsOtherCounts` | database.py:68-73 | linking the catalog to one user leaves every other user's count of rows for each word unchanged |
| `Bot.GroupDeleteLasts` | main.py:118-126 | in a group chat (sender's user differs from the chat's user), after the deletes and the next question's linking the sender keeps max(n - 2, 0) of their n rows for the word, and the deletes leave every count of the chat's user unchanged |

## Left out

- Telegram transport is not modelled: the bot object, message handlers, `send_message`, keyboard rendering, the per-chat state storage and polling. The handlers around the core (`handle_start`, `next_cards`, `delete_word_handler`, `add_word`, `add_word_translate`, `add_word_to_db`) are left out with it, including their `userStep[cid] = 1` and `= 2` assignments and the multi-step input. The quiz data is a plain `QuizData` record passed to `MessageReply`.
- Bot.DeleteWordFromDb: stops before the `create_cards` call that ends the handler; `CreateCards` models that call, and `DeleteThenRelinkRestores` (private chat) and `GroupDeleteLasts` (group chat) state the combined effect on the tables.
- Bot.BotState.MessageReply: always receives a stored `QuizData`. When no question has been stored for the chat (a reply before any question, or after `NoWords`), the handler raises at the lookup of `target_word` in the retrieved data (main.py:159-160); that crash is not modelled, and no "no active question" outcome is either.
- The SQL engine, sessions, commit, rollback and close, `create_tables`, `create_session` and environment reading are not modelled. Each operation is one atomic update of the tables, and failures of the database are not modelled.
- Database.Store.LinkUserWithBaseWords: requires an existing user id. The foreign key on `user_words.user_id` would reject any other id at commit. `CopyWordsToUserWords` has the same requirement.
- Log messages printed by `get_user_step`, `get_random_pair` and `session_scope` are not modelled.
- The `int(...)` conversion of Telegram ids is not modelled: ids are integers already.
- Database.Store.GetUserByTelegramId: does not model the 32-bit width of the `users.telegram_id` column (database.py:34). Telegram ids are unbounded here. On a database whose INTEGER is 32 bits, registering a chat or user id outside that range fails, and with it every operation that registers a user (adding, deleting, picking a pair, dealing a question). The model registers such ids like any other.
- `.first()` without an ORDER BY returns a row in an order the database chooses. The model takes the earliest inserted matching row. This decides which duplicate a delete removes.
- Random distributions are not modelled: only which picks, samples and permutations are possible.
- The use of a session after its block has closed, when `create_cards` reads the catalog, is not modelled. The catalog is read as it stands.
- The seeding script under `__main__` is not modelled; its first four pairs serve as the example catalog of `AnswerCanBeDistractor`.
