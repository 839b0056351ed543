/** The `words` table of the translation server as a value: its rows, the
    constraints the schema declares on them, the placeholder translation and
    the two lookups the handlers run before they write. The rows are kept in
    storage order; nothing the handlers promise depends on that order. */
module Words {

  datatype Option<T> = None | Some(value: T)

  /** One row of the table: `id` is the primary key, `word` is declared
      unique, `translation` is fixed when the row is inserted. */
  datatype Word = Word(id: int, word: string, translation: string)

  /** The marker the placeholder translation appends to the word. */
  const TranslationSuffix: string := "_translated"

  /** The placeholder translation that `add_word` stores with a new word:
      the word itself, followed by the marker. */
  function Translate(word: string): (r: string)
    ensures |r| == |word| + |TranslationSuffix|
    ensures r[..|word|] == word && r[|word|..] == TranslationSuffix
  {
    word + TranslationSuffix
  }

  /** The translation determines the word it was made from: two different
      words never get the same translation. */
  lemma TranslateInjective(a: string, b: string)
    ensures Translate(a) == Translate(b) <==> a == b
  {
  }

  // ---------------------------------------------------------------------
  // Constraints on the rows
  // ---------------------------------------------------------------------

  ghost predicate HasWord(rows: seq<Word>, w: string)
  {
    exists i :: 0 <= i < |rows| && rows[i].word == w
  }

  ghost predicate HasId(rows: seq<Word>, id: int)
  {
    exists i :: 0 <= i < |rows| && rows[i].id == id
  }

  /** The primary-key constraint. */
  ghost predicate UniqueIds(rows: seq<Word>)
  {
    forall i, j :: 0 <= i < j < |rows| ==> rows[i].id != rows[j].id
  }

  /** The unique constraint on the `word` column. */
  ghost predicate UniqueWords(rows: seq<Word>)
  {
    forall i, j :: 0 <= i < j < |rows| ==> rows[i].word != rows[j].word
  }

  /** Every stored translation is the one computed from its word when the
      row was inserted (there is no update). */
  ghost predicate Translated(rows: seq<Word>)
  {
    forall i :: 0 <= i < |rows| ==> rows[i].translation == Translate(rows[i].word)
  }

  ghost predicate Valid(rows: seq<Word>)
  {
    UniqueIds(rows) && UniqueWords(rows) && Translated(rows) && AllInt64(rows)
  }

  /** No two rows of a valid table share a translation either. */
  lemma UniqueTranslations(rows: seq<Word>)
    requires Valid(rows)
    ensures forall i, j :: 0 <= i < j < |rows| ==> rows[i].translation != rows[j].translation
  {
  }

  // ---------------------------------------------------------------------
  // Lookups: `db.query(Word).filter(...).first()`
  // ---------------------------------------------------------------------

  /** The position of the first row whose word is exactly `w`, if any. */
  function FindByWord(rows: seq<Word>, w: string): (r: Option<nat>)
    ensures r.None? <==> !HasWord(rows, w)
    ensures r.Some? ==> r.value < |rows| && rows[r.value].word == w
    ensures r.Some? ==> forall j :: 0 <= j < r.value ==> rows[j].word != w
  {
    if |rows| == 0 then None
    else if rows[0].word == w then Some(0)
    else
      match FindByWord(rows[1..], w)
      case None =>
        assert forall j :: 1 <= j < |rows| ==> rows[j] == rows[1..][j - 1];
        None
      case Some(k) => Some(k + 1)
  }

  /** The position of the first row whose id is `id`, if any. */
  function FindById(rows: seq<Word>, id: int): (r: Option<nat>)
    ensures r.None? <==> !HasId(rows, id)
    ensures r.Some? ==> r.value < |rows| && rows[r.value].id == id
    ensures r.Some? ==> forall j :: 0 <= j < r.value ==> rows[j].id != id
  {
    if |rows| == 0 then None
    else if rows[0].id == id then Some(0)
    else
      match FindById(rows[1..], id)
      case None =>
        assert forall j :: 1 <= j < |rows| ==> rows[j] == rows[1..][j - 1];
        None
      case Some(k) => Some(k + 1)
  }

  /** Under the unique constraint, the row a lookup finds is the only one
      holding that word. */
  lemma FindByWordUnique(rows: seq<Word>, w: string, i: nat)
    requires UniqueWords(rows)
    requires i < |rows| && rows[i].word == w
    ensures FindByWord(rows, w) == Some(i)
  {
  }

  /** Under the primary-key constraint, the row a lookup finds is the only one
      with that id. */
  lemma FindByIdUnique(rows: seq<Word>, id: int, i: nat)
    requires UniqueIds(rows)
    requires i < |rows| && rows[i].id == id
    ensures FindById(rows, id) == Some(i)
  {
  }

  // ---------------------------------------------------------------------
  // Ids: the column is a 64-bit signed integer
  // ---------------------------------------------------------------------

  const Int64Min: int := -0x8000_0000_0000_0000
  const Int64Max: int := 0x7FFF_FFFF_FFFF_FFFF
  /** How many different values the id column can hold. */
  const Int64Count: int := 0x1_0000_0000_0000_0000

  /** `x` fits the 64-bit id column. */
  predicate IsInt64(x: int)
  {
    Int64Min <= x <= Int64Max
  }

  ghost predicate AllInt64(rows: seq<Word>)
  {
    forall i :: 0 <= i < |rows| ==> IsInt64(rows[i].id)
  }

  /** `id` is used by no stored row. */
  predicate IdFree(rows: seq<Word>, id: int)
  {
    forall i :: 0 <= i < |rows| ==> rows[i].id != id
  }

  /** Every value of the id column is in use: no new row can get an id. */
  ghost predicate Full(rows: seq<Word>)
  {
    forall id :: IsInt64(id) ==> !IdFree(rows, id)
  }

  /** The integers from `lo` up to, but not including, `hi`. */
  ghost function Interval(lo: int, hi: int): (s: set<int>)
    requires lo <= hi
    ensures forall x :: x in s <==> lo <= x < hi
    ensures |s| == hi - lo
    decreases hi - lo
  {
    if lo == hi then {} else Interval(lo, hi - 1) + {hi - 1}
  }

  /** The ids in use; as many as there are rows when ids are unique. */
  ghost function IdsOf(rows: seq<Word>): (s: set<int>)
    ensures forall x :: x in s <==> HasId(rows, x)
    ensures |s| <= |rows|
    ensures UniqueIds(rows) ==> |s| == |rows|
  {
    if |rows| == 0 then {}
    else
      var rest := IdsOf(rows[1..]);
      assert forall j :: 1 <= j < |rows| ==> rows[j] == rows[1..][j - 1];
      assert forall x :: HasId(rows[1..], x) ==> HasId(rows, x);
      assert forall x :: HasId(rows, x) ==> x == rows[0].id || HasId(rows[1..], x);
      {rows[0].id} + rest
  }

  /** A table in which every 64-bit id is in use has at least that many
      rows. */
  lemma FullTableHasAllRows(rows: seq<Word>)
    requires Full(rows)
    ensures |rows| >= Int64Count
  {
    var range := Interval(Int64Min, Int64Max + 1);
    var ids := IdsOf(rows);
    assert range <= ids by {
      forall x | x in range ensures x in ids {
        assert !IdFree(rows, x);
      }
    }
    assert ids == range + (ids - range);
  }

  /** Conversely, a valid table with that many rows uses every 64-bit id. */
  lemma FullTableUsesEveryId(rows: seq<Word>)
    requires UniqueIds(rows) && AllInt64(rows)
    requires |rows| >= Int64Count
    ensures Full(rows)
  {
    var range := Interval(Int64Min, Int64Max + 1);
    var ids := IdsOf(rows);
    assert ids <= range;
    assert range == ids + (range - ids);
    assert range - ids == {};
    forall id | IsInt64(id) ensures !IdFree(rows, id) {
      assert id in ids;
    }
  }

  /** While the table holds fewer rows than there are 64-bit ids, some id is
      free for the next insert. */
  lemma FreshIdExists(rows: seq<Word>)
    requires |rows| < Int64Count
    ensures exists id :: IsInt64(id) && IdFree(rows, id)
  {
    if Full(rows) {
      FullTableHasAllRows(rows);
      assert false;
    }
  }

  // ---------------------------------------------------------------------
  // Insert and delete on the rows
  // ---------------------------------------------------------------------

  /** The row `add_word` stores for `w` under the id the database assigns. */
  function NewRow(id: int, w: string): (r: Word)
  {
    Word(id, w, Translate(w))
  }

  /** The rows without the one at position `i`. */
  function RemoveAt(rows: seq<Word>, i: nat): (r: seq<Word>)
    requires i < |rows|
  {
    rows[..i] + rows[i + 1..]
  }

  /** Inserting a row whose word is absent and whose 64-bit id is free keeps
      both uniqueness constraints, the translation invariant and the id
      range. */
  lemma InsertKeepsValid(rows: seq<Word>, id: int, w: string)
    requires Valid(rows)
    requires !HasWord(rows, w) && IsInt64(id) && IdFree(rows, id)
    ensures Valid(rows + [NewRow(id, w)])
  {
  }

  /** Removing any one row keeps both uniqueness constraints, the
      translation invariant and the id range. */
  lemma RemoveKeepsValid(rows: seq<Word>, i: nat)
    requires Valid(rows) && i < |rows|
    ensures Valid(RemoveAt(rows, i))
  {
  }

  /** Removing the row at `i` of a table with unique ids removes exactly the
      record with that row's id and keeps every other record. */
  lemma RemoveAtRecords(rows: seq<Word>, i: nat)
    requires UniqueIds(rows) && i < |rows|
    ensures forall e :: e in RemoveAt(rows, i) <==> e in rows && e.id != rows[i].id
  {
  }

  /** After the row holding `w` is removed, no row holds `w`: the duplicate
      check of a later insert of `w` finds nothing. */
  lemma RemoveFreesWord(rows: seq<Word>, i: nat)
    requires UniqueWords(rows) && i < |rows|
    ensures !HasWord(RemoveAt(rows, i), rows[i].word)
    ensures FindByWord(RemoveAt(rows, i), rows[i].word).None?
  {
  }

  /** After the row with id `rows[i].id` is removed, no row has that id: a
      second delete of it finds nothing. */
  lemma RemoveFreesId(rows: seq<Word>, i: nat)
    requires UniqueIds(rows) && i < |rows|
    ensures IdFree(RemoveAt(rows, i), rows[i].id)
    ensures FindById(RemoveAt(rows, i), rows[i].id).None?
  {
  }
}
