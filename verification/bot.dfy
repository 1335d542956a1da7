/** The quiz rules of the bot: hint formatting, the per-chat step table, assembling the
    answer options of a question, checking an answer and striking a wrong button, and the
    double delete of the delete-word flow. Telegram I/O is not modelled: the per-chat
    quiz data is a plain record passed in. */
module Bot {
  import opened Query
  import opened Database

  const ADD_WORD: string := "Добавить слово ✚"
  const DELETE_WORD: string := "Удалить слово ❌"
  const NEXT: string := "Дальше ⏭"

  /** The command buttons, in the order they are appended after the answer options. */
  const COMMANDS: seq<string> := [NEXT, ADD_WORD, DELETE_WORD]

  /** The mark appended to a button whose text was a wrong answer. */
  const STRUCK: string := "❌"

  const CORRECT_HEADLINE: string := "Это правильный ответ! 👍"
  const WRONG_HEADLINE: string := "Ошибка!"
  const RETRY_PREFIX: string := "Попробуйте ещё раз 🇷🇺"

  /** The hint text: the lines joined with newlines. */
  function ShowHint(lines: seq<string>): (r: string)
    ensures |lines| == 0 ==> r == ""
    ensures |lines| > 0 ==> lines[0] <= r
  {
    if |lines| == 0 then ""
    else if |lines| == 1 then lines[0]
    else lines[0] + "\n" + ShowHint(lines[1..])
  }

  /** The pieces of `s` between newlines (splitting the empty string gives one empty piece). */
  function SplitLines(s: string): (r: seq<string>)
    ensures |r| > 0
  {
    if |s| == 0 then [""]
    else if s[0] == '\n' then [""] + SplitLines(s[1..])
    else
      var rest := SplitLines(s[1..]);
      [[s[0]] + rest[0]] + rest[1..]
  }

  lemma {:induction false} SplitWithoutNewline(s: string)
    requires '\n' !in s
    ensures SplitLines(s) == [s]
  {
    if |s| > 0 {
      assert forall c :: c in s[1..] ==> c in s;
      SplitWithoutNewline(s[1..]);
      assert [s[0]] + s[1..] == s;
    }
  }

  lemma {:induction false} SplitAfterLine(line: string, rest: string)
    requires '\n' !in line
    ensures SplitLines(line + "\n" + rest) == [line] + SplitLines(rest)
  {
    var s := line + "\n" + rest;
    if |line| == 0 {
      assert s == "\n" + rest;
      assert s[1..] == rest;
    } else {
      assert forall c :: c in line[1..] ==> c in line;
      assert s[1..] == line[1..] + "\n" + rest;
      SplitAfterLine(line[1..], rest);
      assert [line[0]] + line[1..] == line;
    }
  }

  /** A hint can be read back line by line: splitting it at newlines gives the lines it was
      made of, as long as no line holds a newline itself. */
  lemma {:induction false} ShowHintSplits(lines: seq<string>)
    requires |lines| > 0
    requires forall i :: 0 <= i < |lines| ==> '\n' !in lines[i]
    ensures SplitLines(ShowHint(lines)) == lines
  {
    if |lines| == 1 {
      SplitWithoutNewline(lines[0]);
    } else {
      ShowHintSplits(lines[1..]);
      SplitAfterLine(lines[0], ShowHint(lines[1..]));
      assert [lines[0]] + lines[1..] == lines;
    }
  }

  /** The per-chat data stored with a question. */
  datatype QuizData = QuizData(targetWord: string, translateWord: string, otherWords: seq<string>)

  /** The "prompt -> answer" line shown after a correct answer. */
  function ShowTarget(data: QuizData): (r: string)
    ensures |r| == |data.translateWord| + 4 + |data.targetWord|
    ensures r[..|data.translateWord|] == data.translateWord
    ensures r[|data.translateWord|..|data.translateWord| + 4] == " -> "
    ensures r[|data.translateWord| + 4..] == data.targetWord
  {
    data.translateWord + " -> " + data.targetWord
  }

  const ARROW: string := " -> "

  /** Reads a "prompt -> answer" line back: the text before the first arrow and the text
      after it, or None when the line holds no arrow. */
  function ParseTarget(s: string): Option<(string, string)>
    decreases |s|
  {
    if |s| < 4 then None
    else if s[..4] == ARROW then Some(("", s[4..]))
    else match ParseTarget(s[1..])
      case None => None
      case Some(p) => Some(([s[0]] + p.0, p.1))
  }

  lemma {:induction false} ParseAfterPrompt(t: string, g: string)
    requires '>' !in t
    ensures ParseTarget(t + ARROW + g) == Some((t, g))
  {
    var s := t + ARROW + g;
    if |t| == 0 {
      assert s == ARROW + g;
      assert s[..4] == ARROW && s[4..] == g;
    } else {
      assert s[..4] != ARROW by {
        if |t| > 2 {
          assert s[..4][2] == t[2];
        } else {
          assert s[..4][|t|] == ' ';
        }
      }
      assert forall c :: c in t[1..] ==> c in t;
      ParseAfterPrompt(t[1..], g);
      assert s[1..] == t[1..] + ARROW + g;
      assert [t[0]] + t[1..] == t;
    }
  }

  /** The line shown after a correct answer gives back the prompt word and the answer,
      provided the prompt word holds no '>'. */
  lemma ShowTargetParses(data: QuizData)
    requires '>' !in data.translateWord
    ensures ParseTarget(ShowTarget(data)) == Some((data.translateWord, data.targetWord))
  {
    ParseAfterPrompt(data.translateWord, data.targetWord);
  }

  function IsText(text: string): string -> bool { (b: string) => b == text }

  /** The buttons after a wrong answer `text`: the first button reading `text` gets the
      strike mark, every other button stays as it was. */
  function Strike(buttons: seq<string>, text: string): (r: seq<string>)
    ensures |r| == |buttons|
    ensures First(buttons, IsText(text)).None? ==> r == buttons
    ensures First(buttons, IsText(text)).Some? ==> r[First(buttons, IsText(text)).value] == text + STRUCK
    ensures forall i :: 0 <= i < |r| && r[i] != buttons[i] ==>
      buttons[i] == text && r[i] == text + STRUCK && forall j :: 0 <= j < i ==> buttons[j] != text
  {
    match First(buttons, IsText(text))
    case None => buttons
    case Some(k) => buttons[k := text + STRUCK]
  }

  /** A command label, possibly struck one or more times. */
  predicate IsCommandLabel(b: string)
    decreases |b|
  {
    b in COMMANDS || (|b| > 0 && b[|b| - 1] == '❌' && IsCommandLabel(b[..|b| - 1]))
  }

  /** Striking keeps a keyboard of command labels a keyboard of command labels. */
  lemma StrikeKeepsCommandLabels(buttons: seq<string>, text: string)
    requires forall i :: 0 <= i < |buttons| ==> IsCommandLabel(buttons[i])
    ensures forall i :: 0 <= i < |Strike(buttons, text)| ==> IsCommandLabel(Strike(buttons, text)[i])
  {
  }

  function HasTranslation(x: string): Word -> bool { (w: Word) => w.translate == x }
  function TranslationDiffers(x: string): Word -> bool { (w: Word) => w.translate != x }

  /** The distractor pool: every catalog translation that differs from `translate`, in
      catalog order and with repetitions. */
  function Candidates(catalog: seq<Word>, translate: string): (r: seq<string>)
    ensures forall x :: x in r <==> x != translate && exists w :: w in catalog && w.translate == x
    ensures forall x :: multiset(r)[x] == if x == translate then 0 else Count(catalog, HasTranslation(x))
    ensures |r| == Count(catalog, TranslationDiffers(translate))
  {
    if |catalog| == 0 then []
    else
      var rest := Candidates(catalog[1..], translate);
      assert forall w :: w in catalog <==> w == catalog[0] || w in catalog[1..];
      (if catalog[0].translate != translate then [catalog[0].translate] else []) + rest
  }

  /** `xs` is what drawing three distinct positions of `pool` can give. */
  predicate IsSample(xs: seq<string>, pool: seq<string>)
  {
    |xs| == 3 && multiset(xs) <= multiset(pool)
  }

  predicate IsPermutation(xs: seq<string>, ys: seq<string>)
  {
    |xs| == |ys| && multiset(xs) == multiset(ys)
  }

  lemma SampleExists(pool: seq<string>)
    requires |pool| >= 3
    ensures IsSample(pool[..3], pool)
  {
    assert pool == pool[..3] + pool[3..];
  }

  /** A question as dealt: its quiz data and its keyboard. */
  datatype Card = Card(data: QuizData, buttons: seq<string>)

  datatype CardOutcome = Shown(card: Card) | NoWords | SampleFailed

  /** `card` is a question for the user's pair (word, translate): the prompt is the word,
      the expected answer is the translation, three distractors drawn from distinct positions
      of the pool, then four shuffled options and the three commands. */
  predicate Dealt(card: Card, catalog: seq<Word>, word: string, translate: string)
  {
    && card.data.targetWord == translate
    && card.data.translateWord == word
    && IsSample(card.data.otherWords, Candidates(catalog, word))
    && |card.buttons| == 7
    && IsPermutation(card.buttons[..4], [translate] + card.data.otherWords)
    && card.buttons[4..] == COMMANDS
  }

  /** Builds the keyboard for the pair (word, translate): the expected answer, three sampled
      distractors, shuffled, then the commands. Sampling fails when the pool is too small. */
  method BuildOptions(catalog: seq<Word>, pair: (string, string)) returns (outcome: CardOutcome)
    ensures !outcome.NoWords?
    ensures outcome.SampleFailed? <==> |Candidates(catalog, pair.0)| < 3
    ensures outcome.Shown? ==> Dealt(outcome.card, catalog, pair.0, pair.1)
  {
    var targetWord := pair.1;
    var translate := pair.0;
    var pool := Candidates(catalog, translate);
    if |pool| < 3 {
      return SampleFailed;
    }
    SampleExists(pool);
    var otherWords :| IsSample(otherWords, pool);
    var options := [targetWord] + otherWords;
    assert IsPermutation(options, options);
    var shuffled :| IsPermutation(shuffled, options);
    assert IsSample(otherWords, pool);
    assert |otherWords| == 3;
    assert IsPermutation(shuffled, options);
    assert |shuffled| == 4;
    var buttons := shuffled + COMMANDS;
    assert buttons[..4] == shuffled && buttons[4..] == COMMANDS;
    outcome := Shown(Card(QuizData(targetWord, translate, otherWords), buttons));
  }

  /** Deals a question to chat `cid`: registers the user, links the catalog to them, picks one
      of their pairs and builds its keyboard. */
  method CreateCards(store: Store, cid: int) returns (outcome: CardOutcome)
    requires store.Valid()
    modifies store
    ensures store.Valid() && store.words == old(store.words)
    ensures UserEnsured(old(store.users), store.users, cid)
    ensures IdOf(store.users, cid).Some?
    ensures var userId := IdOf(store.users, cid).value;
      && store.userWords == Link(old(store.userWords), store.words, userId)
      && (outcome.NoWords? <==> First(store.userWords, OwnedBy(userId)).None?)
      && (outcome.Shown? ==>
            UserWord(userId, outcome.card.data.translateWord, outcome.card.data.targetWord) in store.userWords &&
            Dealt(outcome.card, store.words, outcome.card.data.translateWord, outcome.card.data.targetWord))
      && (outcome.SampleFailed? ==>
            exists r :: r in store.userWords && r.userId == userId && |Candidates(store.words, r.word)| < 3)
  {
    var user := store.GetUserByTelegramId(cid);
    store.LinkUserWithBaseWords(user.id);
    var pair := store.GetRandomPair(cid);
    if pair.None? {
      return NoWords;
    }
    var row := UserWord(user.id, pair.value.0, pair.value.1);
    assert row in store.userWords;
    outcome := BuildOptions(store.words, pair.value);
  }

  /** Deletes the word for the user and reports the first deletion's result; after a success
      a second delete is issued, which removes one more row for the word if there is one. */
  method DeleteWordFromDb(store: Store, uid: int, word: string) returns (reported: bool)
    requires store.Valid()
    modifies store
    ensures store.Valid() && store.words == old(store.words)
    ensures UserEnsured(old(store.users), store.users, uid)
    ensures IdOf(store.users, uid).Some?
    ensures var userId := IdOf(store.users, uid).value;
      && reported == First(old(store.userWords), OwnedWord(userId, word)).Some?
      && store.userWords == if reported
         then RemoveFirst(RemoveFirst(old(store.userWords), userId, word), userId, word)
         else old(store.userWords)
  {
    reported := store.DeleteWordForUser(uid, word);
    if reported {
      var _ := store.DeleteWordForUser(uid, word);
    }
  }

  /** Two deletes leave max(n - 2, 0) of the user's n rows for the word. */
  lemma {:induction false} DoubleDeleteCount(rows: seq<UserWord>, userId: nat, word: string)
    ensures Count(RemoveFirst(RemoveFirst(rows, userId, word), userId, word), OwnedWord(userId, word)) ==
            if Count(rows, OwnedWord(userId, word)) >= 2 then Count(rows, OwnedWord(userId, word)) - 2 else 0
  {
    var once := RemoveFirst(rows, userId, word);
    CountPositive(rows, OwnedWord(userId, word));
    if First(rows, OwnedWord(userId, word)).Some? {
      RemoveFirstCounts(rows, userId, word, userId, word);
      CountPositive(once, OwnedWord(userId, word));
      if First(once, OwnedWord(userId, word)).Some? {
        RemoveFirstCounts(once, userId, word, userId, word);
      }
    }
  }

  /** In a private chat, where the chat id equals the sender's id, deleting a catalog word
      does not last: the question dealt right after the delete links the catalog to the same
      user again, which gives them a row for that word once more. */
  lemma {:induction false} DeleteThenRelinkRestores(rows: seq<UserWord>, catalog: seq<Word>, userId: nat, word: string, translate: string)
    requires Word(word, translate) in catalog
    ensures First(Link(RemoveFirst(RemoveFirst(rows, userId, word), userId, word), catalog, userId),
                  OwnedWord(userId, word)).Some?
  {
    LinkCovers(RemoveFirst(RemoveFirst(rows, userId, word), userId, word), catalog, userId);
    assert Word(word, translate).word == word;
  }

  /** In a group chat the delete acts on the sender's user and the next question links the
      catalog to the chat's user, so the sender keeps max(n - 2, 0) of their n rows for the
      word: the delete lasts, and the chat's own rows, which the quiz reads, are untouched. */
  lemma {:induction false} GroupDeleteLasts(rows: seq<UserWord>, catalog: seq<Word>, senderId: nat, chatUserId: nat, word: string)
    requires senderId != chatUserId
    ensures var deleted := RemoveFirst(RemoveFirst(rows, senderId, word), senderId, word);
      && Count(Link(deleted, catalog, chatUserId), OwnedWord(senderId, word)) ==
           (if Count(rows, OwnedWord(senderId, word)) >= 2 then Count(rows, OwnedWord(senderId, word)) - 2 else 0)
      && (forall w :: Count(deleted, OwnedWord(chatUserId, w)) == Count(rows, OwnedWord(chatUserId, w)))
  {
    var once := RemoveFirst(rows, senderId, word);
    var deleted := RemoveFirst(once, senderId, word);
    LinkKeepsOtherCounts(deleted, catalog, chatUserId, senderId, word);
    DoubleDeleteCount(rows, senderId, word);
    forall w
      ensures Count(deleted, OwnedWord(chatUserId, w)) == Count(rows, OwnedWord(chatUserId, w))
    {
      if First(rows, OwnedWord(senderId, word)).Some? {
        RemoveFirstCounts(rows, senderId, word, chatUserId, w);
        if First(once, OwnedWord(senderId, word)).Some? {
          RemoveFirstCounts(once, senderId, word, chatUserId, w);
        }
      }
    }
  }

  /** In general: the answer of a catalog pair is in the pool of its own question whenever
      the translation differs from the word. */
  lemma AnswerInOwnPool(catalog: seq<Word>, word: string, translate: string)
    requires Word(word, translate) in catalog && translate != word
    ensures translate in Candidates(catalog, word)
  {
  }

  /** A sample of the pool, dealt with the answer first and no shuffle, is a valid question. */
  lemma DealtInOrder(catalog: seq<Word>, word: string, translate: string, sample: seq<string>)
    requires IsSample(sample, Candidates(catalog, word))
    ensures Dealt(Card(QuizData(translate, word, sample), [translate] + sample + COMMANDS), catalog, word, translate)
  {
    var options := [translate] + sample;
    var buttons := options + COMMANDS;
    assert buttons[..4] == options && buttons[4..] == COMMANDS;
  }

  /** The example catalog of the seeding script, first four entries. */
  const SAMPLE_CATALOG: seq<Word> :=
    [Word("Лес", "Forest"), Word("Утро", "Morning"), Word("Вечер", "Evening"), Word("Небо", "Sky")]

  /** Distractors are filtered against the prompt word, not against the expected answer, so
      the expected answer itself can be drawn as a distractor. */
  lemma AnswerCanBeDistractor()
    ensures "Forest" in Candidates(SAMPLE_CATALOG, "Лес")
    ensures Dealt(Card(QuizData("Forest", "Лес", ["Forest", "Morning", "Evening"]),
                       ["Forest"] + ["Forest", "Morning", "Evening"] + COMMANDS),
                  SAMPLE_CATALOG, "Лес", "Forest")
  {
    AnswerInOwnPool(SAMPLE_CATALOG, "Лес", "Forest");
    SamplePoolOfForest();
    SampleOfFour(Candidates(SAMPLE_CATALOG, "Лес"), "Forest", "Morning", "Evening", "Sky");
    DealtInOrder(SAMPLE_CATALOG, "Лес", "Forest", ["Forest", "Morning", "Evening"]);
  }

  /** The first three entries of a four-entry pool are a possible sample. */
  lemma SampleOfFour(pool: seq<string>, a: string, b: string, c: string, d: string)
    requires pool == [a, b, c, d]
    ensures IsSample([a, b, c], pool)
  {
    SampleExists(pool);
    assert pool[..3] == [a, b, c];
  }

  /** The distractor pool of "Лес" in the example catalog. */
  lemma SamplePoolOfForest()
    ensures Candidates(SAMPLE_CATALOG, "Лес") == ["Forest", "Morning", "Evening", "Sky"]
  {
    var c := SAMPLE_CATALOG;
    assert c[3..][1..] == [];
    assert Candidates(c[3..], "Лес") == ["Sky"];
    assert c[2..][1..] == c[3..];
    assert Candidates(c[2..], "Лес") == ["Evening", "Sky"];
    assert c[1..][1..] == c[2..];
    assert Candidates(c[1..], "Лес") == ["Morning", "Evening", "Sky"];
  }

  /** The bot's process-wide state: the known chats, the per-chat step table and the global
      keyboard that answer replies work on. */
  class BotState {
    var knownUsers: seq<int>
    var userStep: map<int, int>
    var buttons: seq<string>

    /** Every known chat has a step; the global keyboard holds command labels only, because
        dealing a question fills a local keyboard and never this one. */
    ghost predicate Valid()
      reads this
    {
      && (forall u :: u in knownUsers ==> u in userStep)
      && (forall i :: 0 <= i < |buttons| ==> IsCommandLabel(buttons[i]))
    }

    constructor ()
      ensures Valid() && knownUsers == [] && userStep == map[] && buttons == []
    {
      knownUsers, userStep, buttons := [], map[], [];
    }

    /** The stored step of `uid`; an unknown chat is recorded with step 0. */
    method GetUserStep(uid: int) returns (step: int)
      requires Valid()
      modifies this`knownUsers, this`userStep
      ensures Valid()
      ensures uid in old(userStep) ==>
        step == old(userStep)[uid] && userStep == old(userStep) && knownUsers == old(knownUsers)
      ensures uid !in old(userStep) ==>
        step == 0 && userStep == old(userStep)[uid := 0] && knownUsers == old(knownUsers) + [uid]
    {
      if uid in userStep {
        return userStep[uid];
      }
      knownUsers := knownUsers + [uid];
      userStep := userStep[uid := 0];
      step := 0;
    }

    /** Answers `text` to the question in `data`: a correct answer extends the keyboard by the
        three commands, a wrong one strikes the first button reading `text`. */
    method MessageReply(text: string, data: QuizData) returns (hint: string)
      requires Valid()
      modifies this`buttons
      ensures Valid()
      ensures text == data.targetWord ==>
        buttons == old(buttons) + COMMANDS && hint == ShowHint([CORRECT_HEADLINE, ShowTarget(data)])
      ensures text != data.targetWord ==>
        buttons == Strike(old(buttons), text) && hint == ShowHint([WRONG_HEADLINE, RETRY_PREFIX + data.translateWord])
    {
      if text == data.targetWord {
        buttons := buttons + COMMANDS;
        hint := ShowHint([CORRECT_HEADLINE, ShowTarget(data)]);
      } else {
        var i := 0;
        while i < |buttons|
          invariant 0 <= i <= |buttons|
          invariant buttons == old(buttons)
          invariant forall j :: 0 <= j < i ==> buttons[j] != text
        {
          if buttons[i] == text {
            buttons := buttons[i := text + STRUCK];
            break;
          }
          i := i + 1;
        }
        StrikeKeepsCommandLabels(old(buttons), text);
        hint := ShowHint([WRONG_HEADLINE, RETRY_PREFIX + data.translateWord]);
      }
    }
  }
}
