/** The vocabulary store: the three tables `users`, `words` (the shared catalog) and
    `user_words` (each user's own copies of pairs), and the operations the bot runs on them.
    Each operation is one atomic update of the tables; commit, rollback and the SQL engine
    are not modelled. */
module Database {
  import opened Query

  /** A row of `users`: surrogate key and Telegram id; the Telegram id is unique. */
  datatype User = User(id: nat, telegramId: int)

  /** A row of the catalog `words`; `word` is unique. */
  datatype Word = Word(word: string, translate: string)

  /** A row of `user_words`. The table has no uniqueness constraint at all. */
  datatype UserWord = UserWord(userId: nat, word: string, translate: string)

  // The filters the queries use.
  function HasTelegramId(telegramId: int): User -> bool { (u: User) => u.telegramId == telegramId }
  function IsWord(word: string): Word -> bool { (w: Word) => w.word == word }
  function OwnedWord(userId: nat, word: string): UserWord -> bool { (r: UserWord) => r.userId == userId && r.word == word }
  function OwnedBy(userId: nat): UserWord -> bool { (r: UserWord) => r.userId == userId }

  function UserIds(users: seq<User>): set<nat> { set u | u in users :: u.id }

  /** The surrogate key of the user with this Telegram id, if there is one. */
  function IdOf(users: seq<User>, telegramId: int): Option<nat>
  {
    match First(users, HasTelegramId(telegramId))
    case None => None
    case Some(i) => Some(users[i].id)
  }

  /** `after` is `before` when the Telegram id was registered, and otherwise `before`
      with exactly one new user carrying that Telegram id. */
  ghost predicate UserEnsured(before: seq<User>, after: seq<User>, telegramId: int)
  {
    if First(before, HasTelegramId(telegramId)).Some? then after == before
    else |after| == |before| + 1 && after[..|before|] == before && after[|before|].telegramId == telegramId
  }

  /** No user holds two rows for the same word. */
  ghost predicate NoDuplicates(rows: seq<UserWord>, userId: nat)
  {
    forall i, j :: 0 <= i < j < |rows| && rows[i].userId == userId && rows[j].userId == userId ==>
      rows[i].word != rows[j].word
  }

  ghost predicate UniqueWords(catalog: seq<Word>)
  {
    forall i, j :: 0 <= i < j < |catalog| ==> catalog[i].word != catalog[j].word
  }

  /** One iteration of the linking loop: insert a copy of `w` unless the user already has the word. */
  function LinkStep(rows: seq<UserWord>, w: Word, userId: nat): seq<UserWord>
  {
    if First(rows, OwnedWord(userId, w.word)).Some? then rows
    else rows + [UserWord(userId, w.word, w.translate)]
  }

  /** The rows after linking every catalog word, in catalog order, to the user. */
  function Link(rows: seq<UserWord>, catalog: seq<Word>, userId: nat): seq<UserWord>
    decreases |catalog|
  {
    if |catalog| == 0 then rows
    else LinkStep(Link(rows, catalog[..|catalog| - 1], userId), catalog[|catalog| - 1], userId)
  }

  /** The rows that copying the catalog to a user appends: one per catalog entry, unchecked. */
  function CopyRows(catalog: seq<Word>, userId: nat): seq<UserWord>
  {
    seq(|catalog|, k requires 0 <= k < |catalog| => UserWord(userId, catalog[k].word, catalog[k].translate))
  }

  /** The rows after deleting the first row of `userId` for `word`, if any. */
  function RemoveFirst(rows: seq<UserWord>, userId: nat, word: string): (r: seq<UserWord>)
    ensures First(rows, OwnedWord(userId, word)).None? ==> r == rows
    ensures First(rows, OwnedWord(userId, word)).Some? ==>
      var k := First(rows, OwnedWord(userId, word)).value;
      |r| == |rows| - 1 && multiset(r) + multiset{rows[k]} == multiset(rows)
  {
    match First(rows, OwnedWord(userId, word))
    case None => rows
    case Some(k) =>
      assert rows == rows[..k] + [rows[k]] + rows[k + 1..];
      rows[..k] + rows[k + 1..]
  }

  /** Appending a row of a known user keeps every row's user known. */
  lemma AppendKeepsUsers(rows: seq<UserWord>, row: UserWord, ids: set<nat>)
    requires forall k :: 0 <= k < |rows| ==> rows[k].userId in ids
    requires row.userId in ids
    ensures forall k :: 0 <= k < |rows + [row]| ==> (rows + [row])[k].userId in ids
  {
  }

  /** Deleting a row keeps every other row, so the remaining rows still belong to known users. */
  lemma RemoveFirstKeepsUsers(rows: seq<UserWord>, userId: nat, word: string, ids: set<nat>)
    requires forall k :: 0 <= k < |rows| ==> rows[k].userId in ids
    ensures forall k :: 0 <= k < |RemoveFirst(rows, userId, word)| ==> RemoveFirst(rows, userId, word)[k].userId in ids
  {
    var r := RemoveFirst(rows, userId, word);
    forall k | 0 <= k < |r|
      ensures r[k].userId in ids
    {
      assert r[k] in multiset(r);
      assert r[k] in rows;
    }
  }

  lemma FirstInPrefix<T>(a: seq<T>, b: seq<T>, p: T -> bool)
    requires First(a, p).Some?
    ensures First(a + b, p).Some?
  {
    var k := First(a, p).value;
    assert (a + b)[k] == a[k];
  }

  /** Linking keeps every existing row in place and only appends copies of catalog pairs for
      the linked user, so rows of every other user are untouched. */
  lemma {:induction false} LinkAppendsCopies(rows: seq<UserWord>, catalog: seq<Word>, userId: nat)
    ensures |rows| <= |Link(rows, catalog, userId)|
    ensures Link(rows, catalog, userId)[..|rows|] == rows
    ensures forall k :: |rows| <= k < |Link(rows, catalog, userId)| ==>
      Link(rows, catalog, userId)[k].userId == userId &&
      Word(Link(rows, catalog, userId)[k].word, Link(rows, catalog, userId)[k].translate) in catalog
  {
    if |catalog| > 0 {
      var init := catalog[..|catalog| - 1];
      LinkAppendsCopies(rows, init, userId);
      assert forall w :: w in init ==> w in catalog;
    }
  }

  /** After linking, the user has a row for every catalog word. */
  lemma {:induction false} LinkCovers(rows: seq<UserWord>, catalog: seq<Word>, userId: nat)
    ensures forall w :: w in catalog ==> First(Link(rows, catalog, userId), OwnedWord(userId, w.word)).Some?
  {
    if |catalog| > 0 {
      var init, last := catalog[..|catalog| - 1], catalog[|catalog| - 1];
      var before := Link(rows, init, userId);
      LinkCovers(rows, init, userId);
      assert catalog == init + [last];
      forall w | w in catalog
        ensures First(Link(rows, catalog, userId), OwnedWord(userId, w.word)).Some?
      {
        if w in init {
          if First(before, OwnedWord(userId, last.word)).None? {
            FirstInPrefix(before, [UserWord(userId, last.word, last.translate)], OwnedWord(userId, w.word));
          }
        } else {
          assert w == last;
          var after := Link(rows, catalog, userId);
          if First(before, OwnedWord(userId, last.word)).None? {
            assert after[|after| - 1] == UserWord(userId, last.word, last.translate);
          }
        }
      }
    }
  }

  /** Linking a catalog whose every word the user already has changes nothing. */
  lemma {:induction false} LinkCoveredIsNoop(rows: seq<UserWord>, catalog: seq<Word>, userId: nat)
    requires forall w :: w in catalog ==> First(rows, OwnedWord(userId, w.word)).Some?
    ensures Link(rows, catalog, userId) == rows
  {
    if |catalog| > 0 {
      var init := catalog[..|catalog| - 1];
      assert forall w :: w in init ==> w in catalog;
      LinkCoveredIsNoop(rows, init, userId);
      assert catalog[|catalog| - 1] in catalog;
    }
  }

  /** Linking the catalog to one user leaves every other user's rows for a word as they were. */
  lemma {:induction false} LinkKeepsOtherCounts(rows: seq<UserWord>, catalog: seq<Word>, userId: nat, other: nat, word: string)
    requires other != userId
    ensures Count(Link(rows, catalog, userId), OwnedWord(other, word)) == Count(rows, OwnedWord(other, word))
  {
    if |catalog| > 0 {
      var prev := Link(rows, catalog[..|catalog| - 1], userId);
      var w := catalog[|catalog| - 1];
      LinkKeepsOtherCounts(rows, catalog[..|catalog| - 1], userId, other, word);
      if First(prev, OwnedWord(userId, w.word)).None? {
        CountAppend(prev, [UserWord(userId, w.word, w.translate)], OwnedWord(other, word));
        assert [UserWord(userId, w.word, w.translate)][1..] == [];
      }
    }
  }

  /** Linking twice inserts nothing the second time. */
  lemma {:induction false} LinkIdempotent(rows: seq<UserWord>, catalog: seq<Word>, userId: nat)
    ensures Link(Link(rows, catalog, userId), catalog, userId) == Link(rows, catalog, userId)
  {
    LinkCovers(rows, catalog, userId);
    LinkCoveredIsNoop(Link(rows, catalog, userId), catalog, userId);
  }

  /** Linking never gives a user a second row for a word. */
  lemma {:induction false} LinkKeepsNoDuplicates(rows: seq<UserWord>, catalog: seq<Word>, userId: nat)
    requires NoDuplicates(rows, userId)
    ensures NoDuplicates(Link(rows, catalog, userId), userId)
  {
    if |catalog| > 0 {
      var last := catalog[|catalog| - 1];
      var before := Link(rows, catalog[..|catalog| - 1], userId);
      LinkKeepsNoDuplicates(rows, catalog[..|catalog| - 1], userId);
      if First(before, OwnedWord(userId, last.word)).None? {
        var after := before + [UserWord(userId, last.word, last.translate)];
        forall i, j | 0 <= i < j < |after| && after[i].userId == userId && after[j].userId == userId
          ensures after[i].word != after[j].word
        {
          if j == |before| {
            assert !OwnedWord(userId, last.word)(before[i]);
          }
        }
      }
    }
  }

  /** Copying the catalog to a user who already has a catalog word gives that user a second
      row for it: the copy performs no existence check. */
  lemma {:induction false} CopyDuplicates(rows: seq<UserWord>, catalog: seq<Word>, userId: nat, w: Word)
    requires w in catalog && First(rows, OwnedWord(userId, w.word)).Some?
    ensures Count(rows + CopyRows(catalog, userId), OwnedWord(userId, w.word)) >= 2
  {
    var copies := CopyRows(catalog, userId);
    var k :| 0 <= k < |catalog| && catalog[k] == w;
    assert OwnedWord(userId, w.word)(copies[k]);
    CountAppend(rows, copies, OwnedWord(userId, w.word));
    CountPositive(rows, OwnedWord(userId, w.word));
    CountPositive(copies, OwnedWord(userId, w.word));
  }

  /** Copying right after linking a non-empty catalog always creates a duplicate. */
  lemma {:induction false} CopyAfterLinkDuplicates(rows: seq<UserWord>, catalog: seq<Word>, userId: nat)
    requires |catalog| > 0
    ensures !NoDuplicates(Link(rows, catalog, userId) + CopyRows(catalog, userId), userId)
  {
    var w := catalog[0];
    var linked := Link(rows, catalog, userId);
    LinkCovers(rows, catalog, userId);
    var i := First(linked, OwnedWord(userId, w.word)).value;
    var all := linked + CopyRows(catalog, userId);
    assert all[i].userId == userId && all[i].word == w.word;
    assert all[|linked|] == UserWord(userId, w.word, w.translate);
  }

  /** Deleting removes exactly one of the user's rows for the word when there is one, and
      leaves the number of rows of every other (user, word) pair as it was. */
  lemma {:induction false} RemoveFirstCounts(rows: seq<UserWord>, userId: nat, word: string, otherUser: nat, otherWord: string)
    requires First(rows, OwnedWord(userId, word)).Some?
    ensures Count(RemoveFirst(rows, userId, word), OwnedWord(userId, word)) ==
            Count(rows, OwnedWord(userId, word)) - 1
    ensures (otherUser, otherWord) != (userId, word) ==>
      Count(RemoveFirst(rows, userId, word), OwnedWord(otherUser, otherWord)) ==
      Count(rows, OwnedWord(otherUser, otherWord))
  {
    var k := First(rows, OwnedWord(userId, word)).value;
    assert rows == rows[..k] + ([rows[k]] + rows[k + 1..]);
    forall p: UserWord -> bool
      ensures Count(rows, p) == Count(RemoveFirst(rows, userId, word), p) + Count([rows[k]], p)
    {
      CountAppend(rows[..k], [rows[k]] + rows[k + 1..], p);
      CountAppend([rows[k]], rows[k + 1..], p);
      CountAppend(rows[..k], rows[k + 1..], p);
    }
  }

  /** With unique catalog words, a word occurs in at most one catalog row. */
  lemma {:induction false} UniqueWordsCount(catalog: seq<Word>, word: string)
    requires UniqueWords(catalog)
    ensures Count(catalog, IsWord(word)) <= 1
  {
    if |catalog| > 0 {
      UniqueWordsCount(catalog[1..], word);
      if catalog[0].word == word {
        CountPositive(catalog[1..], IsWord(word));
      }
    }
  }

  /** The catalog after adding (word, translate): unchanged when the word is catalogued. */
  function AddToCatalog(catalog: seq<Word>, word: string, translate: string): seq<Word>
  {
    if First(catalog, IsWord(word)).Some? then catalog else catalog + [Word(word, translate)]
  }

  /** Adding a word keeps catalog words unique and leaves exactly one row for the word; adding
      it again, with any translation, changes nothing. */
  lemma {:induction false} AddWordTwice(catalog: seq<Word>, word: string, translate: string, again: string)
    requires UniqueWords(catalog)
    ensures UniqueWords(AddToCatalog(catalog, word, translate))
    ensures Count(AddToCatalog(catalog, word, translate), IsWord(word)) == 1
    ensures AddToCatalog(AddToCatalog(catalog, word, translate), word, again) == AddToCatalog(catalog, word, translate)
  {
    var once := AddToCatalog(catalog, word, translate);
    CountPositive(catalog, IsWord(word));
    if First(catalog, IsWord(word)).None? {
      CountAppend(catalog, [Word(word, translate)], IsWord(word));
      assert once[|catalog|] == Word(word, translate);
    }
    UniqueWordsCount(once, word);
    CountPositive(once, IsWord(word));
  }

  /** The tables. `nextId` is the next value of the `users.id` sequence. */
  class Store {
    var users: seq<User>
    var words: seq<Word>
    var userWords: seq<UserWord>
    var nextId: nat

    /** The table constraints: unique Telegram ids and keys, unique catalog words, and every
        `user_words` row referring to an existing user. */
    ghost predicate Valid()
      reads this
    {
      && (forall i, j :: 0 <= i < j < |users| ==> users[i].telegramId != users[j].telegramId)
      && (forall i, j :: 0 <= i < j < |users| ==> users[i].id != users[j].id)
      && (forall i :: 0 <= i < |users| ==> users[i].id < nextId)
      && UniqueWords(words)
      && (forall k :: 0 <= k < |userWords| ==> userWords[k].userId in UserIds(users))
    }

    /** Freshly created, empty tables. */
    constructor ()
      ensures Valid() && users == [] && words == [] && userWords == []
    {
      users, words, userWords, nextId := [], [], [], 0;
    }

    /** Returns the user with this Telegram id, registering a new one if there is none. */
    method GetUserByTelegramId(telegramId: int) returns (user: User)
      requires Valid()
      modifies this`users, this`nextId
      ensures Valid()
      ensures UserEnsured(old(users), users, telegramId)
      ensures user.telegramId == telegramId && IdOf(users, telegramId) == Some(user.id)
      ensures First(old(users), HasTelegramId(telegramId)).None? ==> user.id !in UserIds(old(users))
    {
      var found := First(users, HasTelegramId(telegramId));
      if found.Some? {
        user := users[found.value];
      } else {
        user := User(nextId, telegramId);
        ghost var before := users;
        users := users + [user];
        nextId := nextId + 1;
        assert users[..|before|] == before;
        assert HasTelegramId(telegramId)(users[|before|]);
        assert forall u :: u in before ==> u in users;
      }
    }

    /** Gives the user a copy of every catalog word they do not have yet. */
    method LinkUserWithBaseWords(userId: nat)
      requires Valid() && userId in UserIds(users)
      modifies this`userWords
      ensures Valid()
      ensures userWords == Link(old(userWords), words, userId)
    {
      var base := words;
      var i := 0;
      while i < |base|
        invariant 0 <= i <= |base|
        invariant Valid()
        invariant userWords == Link(old(userWords), base[..i], userId)
      {
        var w := base[i];
        if First(userWords, OwnedWord(userId, w.word)).None? {
          AppendKeepsUsers(userWords, UserWord(userId, w.word, w.translate), UserIds(users));
          userWords := userWords + [UserWord(userId, w.word, w.translate)];
        }
        assert base[..i + 1][..i] == base[..i];
        i := i + 1;
      }
      assert base[..|base|] == base;
    }

    /** Adds a catalog pair unless the word is already catalogued; an existing row keeps its
        translation. */
    method AddWord(word: string, translate: string)
      requires Valid()
      modifies this`words
      ensures Valid()
      ensures First(old(words), IsWord(word)).Some? ==> words == old(words)
      ensures First(old(words), IsWord(word)).None? ==> words == old(words) + [Word(word, translate)]
      ensures words == AddToCatalog(old(words), word, translate)
    {
      if First(words, IsWord(word)).None? {
        words := words + [Word(word, translate)];
      }
    }

    /** Appends a copy of every catalog pair to the user's rows, without any existence check. */
    method CopyWordsToUserWords(userId: nat)
      requires Valid() && userId in UserIds(users)
      modifies this`userWords
      ensures Valid()
      ensures userWords == old(userWords) + CopyRows(words, userId)
    {
      var base := words;
      var i := 0;
      while i < |base|
        invariant 0 <= i <= |base|
        invariant Valid()
        invariant userWords == old(userWords) + CopyRows(base[..i], userId)
      {
        userWords := userWords + [UserWord(userId, base[i].word, base[i].translate)];
        assert CopyRows(base[..i + 1], userId) == CopyRows(base[..i], userId) + [UserWord(userId, base[i].word, base[i].translate)];
        i := i + 1;
      }
      assert base[..|base|] == base;
    }

    /** Adds a word for the user unless they already have it; the result says whether a row
        was added. */
    method AddWordForUser(telegramId: int, word: string, translate: string) returns (added: bool)
      requires Valid()
      modifies this
      ensures Valid() && words == old(words)
      ensures UserEnsured(old(users), users, telegramId)
      ensures IdOf(users, telegramId).Some?
      ensures var userId := IdOf(users, telegramId).value;
        && added == First(old(userWords), OwnedWord(userId, word)).None?
        && userWords == if added then old(userWords) + [UserWord(userId, word, translate)] else old(userWords)
    {
      var user := GetUserByTelegramId(telegramId);
      if First(userWords, OwnedWord(user.id, word)).None? {
        assert user.id in UserIds(users) by {
          assert users[First(users, HasTelegramId(telegramId)).value] in users;
        }
        userWords := userWords + [UserWord(user.id, word, translate)];
        added := true;
      } else {
        added := false;
      }
    }

    /** Deletes the user's first row for the word; the result says whether there was one. */
    method DeleteWordForUser(telegramId: int, word: string) returns (deleted: bool)
      requires Valid()
      modifies this
      ensures Valid() && words == old(words)
      ensures UserEnsured(old(users), users, telegramId)
      ensures IdOf(users, telegramId).Some?
      ensures var userId := IdOf(users, telegramId).value;
        && deleted == First(old(userWords), OwnedWord(userId, word)).Some?
        && userWords == RemoveFirst(old(userWords), userId, word)
    {
      var user := GetUserByTelegramId(telegramId);
      var found := First(userWords, OwnedWord(user.id, word));
      if found.Some? {
        var k := found.value;
        ghost var before := userWords;
        RemoveFirstKeepsUsers(before, user.id, word, UserIds(users));
        userWords := userWords[..k] + userWords[k + 1..];
        assert userWords == RemoveFirst(before, user.id, word);
        deleted := true;
      } else {
        deleted := false;
      }
    }

    /** Picks any one of the user's rows as a (word, translate) pair, or None when the user has
        no rows. The lookup registers an unknown user, so there is no "user not found" case. */
    method GetRandomPair(telegramId: int) returns (pair: Option<(string, string)>)
      requires Valid()
      modifies this`users, this`nextId
      ensures Valid()
      ensures UserEnsured(old(users), users, telegramId)
      ensures IdOf(users, telegramId).Some?
      ensures var userId := IdOf(users, telegramId).value;
        && (pair.None? <==> First(userWords, OwnedBy(userId)).None?)
        && (pair.Some? ==> UserWord(userId, pair.value.0, pair.value.1) in userWords)
      ensures First(old(users), HasTelegramId(telegramId)).None? ==> pair.None?
    {
      var user := GetUserByTelegramId(telegramId);
      if First(userWords, OwnedBy(user.id)).None? {
        pair := None;
      } else {
        var k :| 0 <= k < |userWords| && userWords[k].userId == user.id;
        pair := Some((userWords[k].word, userWords[k].translate));
        assert userWords[k] == UserWord(user.id, pair.value.0, pair.value.1);
      }
    }
  }
}
