/** The three handlers of the translation server (`add_word`, `list_words`,
    `delete_word`) as methods on the table they share. Each call is one atomic
    step; the web framework, the database session and the HTTP status codes
    are not modelled. The two refusals are result values carrying the
    server's exact detail messages; a request the database layer cannot
    serve, which the handlers do not catch, is the outcome `Fault`. */
module WordServer {
  import opened Words

  /** The two ways a handler refuses a request. */
  datatype Failure = AlreadyExists | NotFound
  {
    /** The `detail` text the server sends with the failure. */
    function Detail(): (r: string)
      ensures AlreadyExists? ==> r == "Word already exists."
      ensures NotFound? ==> r == "Word not found."
    {
      match this
      case AlreadyExists => "Word already exists."
      case NotFound => "Word not found."
    }
  }

  /** What a handler answers: a value, a refusal, or an error it does not
      handle itself (the server then answers with an internal error). */
  datatype Result<T> = Ok(value: T) | Err(failure: Failure) | Fault

  /** The `detail` text of a successful delete. */
  const DeletedDetail: string := "Word deleted."

  /** The three detail messages differ, so a client tells the outcomes apart
      by the message alone. */
  lemma DetailsDistinct()
    ensures AlreadyExists.Detail() != NotFound.Detail()
    ensures AlreadyExists.Detail() != DeletedDetail && NotFound.Detail() != DeletedDetail
  {
  }

  /** The `words` table and the handlers that read and change it. */
  class WordStore {
    /** The live rows, in storage order. */
    var rows: seq<Word>

    ghost predicate Valid()
      reads this
    {
      Words.Valid(rows)
    }

    /** A freshly created, empty table. */
    constructor ()
      ensures Valid() && rows == []
    {
      rows := [];
    }

    /** `add_word`: refuses a word some row already holds and changes nothing;
        otherwise stores and returns one new row holding the word, its
        translation and a 64-bit id no live row uses. When every 64-bit id is
        in use the insert fails in the database and nothing changes. */
    method AddWord(word: string) returns (r: Result<Word>)
      requires Valid()
      modifies this
      ensures Valid()
      ensures r.Err? <==> HasWord(old(rows), word)
      ensures r.Err? ==> r.failure == AlreadyExists && rows == old(rows)
      ensures r.Fault? <==> !HasWord(old(rows), word) && Full(old(rows))
      ensures r.Fault? ==> rows == old(rows)
      ensures r.Ok? ==> r.value.word == word && r.value.translation == Translate(word)
      ensures r.Ok? ==> IsInt64(r.value.id) && IdFree(old(rows), r.value.id)
      ensures r.Ok? ==> rows == old(rows) + [r.value]
    {
      var existing := FindByWord(rows, word);
      if existing.Some? {
        return Err(AlreadyExists);
      }
      if |rows| >= Int64Count {
        FullTableUsesEveryId(rows);
        return Fault;
      }
      FreshIdExists(rows);
      var id :| IsInt64(id) && IdFree(rows, id);
      var newWord := NewRow(id, word);
      InsertKeepsValid(rows, id, word);
      rows := rows + [newWord];
      r := Ok(newWord);
    }

    /** `list_words`: every live row exactly once, in no promised order; the
        rows listed satisfy both uniqueness constraints. */
    function ListWords(): (r: seq<Word>)
      reads this
      requires Valid()
      ensures multiset(r) == multiset(rows)
      ensures Words.Valid(r)
    {
      rows
    }

    /** `delete_word`: an id that does not fit the 64-bit column cannot be
        bound to the query, which fails and changes nothing; otherwise it
        refuses an id no row has and changes nothing, or removes exactly the
        row with that id and keeps every other row. */
    method DeleteWord(wordId: int) returns (r: Result<string>)
      requires Valid()
      modifies this
      ensures Valid()
      ensures r.Fault? <==> !IsInt64(wordId)
      ensures r.Fault? ==> rows == old(rows)
      ensures r.Err? <==> IsInt64(wordId) && !HasId(old(rows), wordId)
      ensures r.Err? ==> r.failure == NotFound && rows == old(rows)
      ensures r.Ok? ==> r.value == DeletedDetail
      ensures r.Ok? ==> exists i :: 0 <= i < |old(rows)| && old(rows)[i].id == wordId && rows == RemoveAt(old(rows), i)
      ensures r.Ok? ==> forall e :: e in rows <==> e in old(rows) && e.id != wordId
    {
      if !IsInt64(wordId) {
        return Fault;
      }
      var found := FindById(rows, wordId);
      if found.None? {
        return Err(NotFound);
      }
      var i := found.value;
      RemoveKeepsValid(rows, i);
      RemoveAtRecords(rows, i);
      rows := RemoveAt(rows, i);
      r := Ok(DeletedDetail);
    }
  }

  /** Deleting the row that holds a word and then adding that word again:
      both calls succeed, because the duplicate check sees only live rows. */
  method DeleteThenReAdd(store: WordStore, i: nat) returns (d: Result<string>, a: Result<Word>)
    requires store.Valid() && i < |store.rows|
    modifies store
    ensures store.Valid()
    ensures d == Ok(DeletedDetail)
    ensures a.Ok? && a.value.word == old(store.rows[i].word)
  {
    ghost var before := store.rows;
    var w := store.rows[i].word;
    d := store.DeleteWord(store.rows[i].id);
    ghost var j :| 0 <= j < |before| && before[j].id == before[i].id && store.rows == RemoveAt(before, j);
    assert j == i;
    RemoveFreesWord(before, i);
    a := store.AddWord(w);
  }

  /** A client scenario: adding a word twice, listing, deleting it twice, and adding
      it again once it is gone. */
  method Scenario()
  {
    var store := new WordStore();
    assert IsInt64(0) && IdFree(store.rows, 0);
    var r1 := store.AddWord("hello");
    assert r1.Ok? && store.rows == [r1.value];
    assert Translate("hello") == "hello" + "_translated" == "hello_translated";
    assert r1 == Ok(Word(r1.value.id, "hello", "hello_translated"));
    assert store.rows[0].word == "hello";
    var r2 := store.AddWord("hello");
    assert r2 == Err(AlreadyExists) && r2.failure.Detail() == "Word already exists.";
    assert store.ListWords() == [r1.value];
    var d1 := store.DeleteWord(r1.value.id);
    assert d1 == Ok("Word deleted.");
    assert store.ListWords() == [];
    var d2 := store.DeleteWord(r1.value.id);
    assert d2 == Err(NotFound) && d2.failure.Detail() == "Word not found.";
    var r3 := store.AddWord("hello");
    assert r3.Ok?;
  }
}
