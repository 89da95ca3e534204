/**
 * The `hints` table: integer ids handed out by AUTOINCREMENT, a free-text
 * faculty, and a text column declared `UNIQUE COLLATE NOCASE` - the store
 * itself refuses two hints whose texts differ only in ASCII case, whatever
 * their faculties.
 */
module HintStore {
  import opened Base
  import Text

  datatype Hint = Hint(faculty: string, text: string)

  /** The live rows, and the next id AUTOINCREMENT will hand out. */
  datatype Store = Store(hints: map<int, Hint>, nextId: int)

  const Empty: Store := Store(map[], 1)

  /** No two distinct rows have texts equal under NOCASE. */
  predicate TextUnique(h: map<int, Hint>)
  {
    forall i, j :: i in h && j in h && i != j ==> !Text.NoCaseEq(h[i].text, h[j].text)
  }

  predicate Valid(st: Store)
  {
    && st.nextId >= 1
    && (forall id :: id in st.hints ==> 1 <= id < st.nextId)
    && TextUnique(st.hints)
  }

  /** Some row other than `except` has a text NOCASE-equal to `text`: what the UNIQUE index checks. */
  predicate TextTaken(st: Store, text: string, except: Option<int>)
  {
    exists id :: id in st.hints && Some(id) != except && Text.NoCaseEq(st.hints[id].text, text)
  }

  /**
   * The application's own duplicate query
   * `faculty = ? AND text COLLATE NOCASE = ? [AND id != ?]`: the faculty is
   * compared exactly, the text under NOCASE.
   */
  predicate PairTaken(st: Store, faculty: string, text: string, except: Option<int>)
  {
    exists id :: id in st.hints && Some(id) != except
      && st.hints[id].faculty == faculty && Text.NoCaseEq(st.hints[id].text, text)
  }

  /** The pair check is strictly weaker than the index: a pair duplicate is always a text duplicate. */
  lemma PairTakenImpliesTextTaken(st: Store, faculty: string, text: string, except: Option<int>)
    ensures PairTaken(st, faculty, text, except) ==> TextTaken(st, text, except)
  {
  }

  /**
   * Both duplicate tests compare texts under NOCASE: two texts that differ
   * only in ASCII case are taken, or free, together.
   */
  lemma TakenUpToCase(st: Store, faculty: string, a: string, b: string, except: Option<int>)
    requires Text.NoCaseEq(a, b)
    ensures TextTaken(st, a, except) <==> TextTaken(st, b, except)
    ensures PairTaken(st, faculty, a, except) <==> PairTaken(st, faculty, b, except)
  {
  }

  /** Every stored row other than `except` makes its own text, and its own pair, taken. */
  lemma StoredRowIsTaken(st: Store, id: int, except: Option<int>)
    requires id in st.hints && Some(id) != except
    ensures TextTaken(st, st.hints[id].text, except)
    ensures PairTaken(st, st.hints[id].faculty, st.hints[id].text, except)
  {
    assert Text.NoCaseEq(st.hints[id].text, st.hints[id].text);
  }

  /** Outcome of `INSERT INTO hints`. */
  datatype InsertResult = Inserted(st: Store, id: int) | UniqueViolation

  function Insert(st: Store, h: Hint): (r: InsertResult)
    ensures r.UniqueViolation? <==> TextTaken(st, h.text, None)
    ensures r.Inserted? ==> r.st.hints == st.hints[r.id := h] && r.id == st.nextId
    ensures r.Inserted? && Valid(st) ==> r.id !in st.hints && Valid(r.st)
  {
    if TextTaken(st, h.text, None) then UniqueViolation
    else Inserted(Store(st.hints[st.nextId := h], st.nextId + 1), st.nextId)
  }

  /** Outcome of `UPDATE hints SET ... WHERE id = ?`; `NoRow` is the `changes === 0` case. */
  datatype UpdateResult = Updated(st: Store) | NoRow | UpdateViolation

  function Update(st: Store, id: int, h: Hint): (r: UpdateResult)
    ensures r.NoRow? <==> id !in st.hints
    ensures r.UpdateViolation? <==> id in st.hints && TextTaken(st, h.text, Some(id))
    ensures r.Updated? ==> r.st.hints == st.hints[id := h] && r.st.nextId == st.nextId
    ensures r.Updated? && Valid(st) ==> Valid(r.st)
  {
    if id !in st.hints then NoRow
    else if TextTaken(st, h.text, Some(id)) then UpdateViolation
    else Updated(Store(st.hints[id := h], st.nextId))
  }

  /** `DELETE FROM hints WHERE id = ?`, with whether a row went. */
  function Delete(st: Store, id: int): (r: (Store, bool))
    ensures r.1 <==> id in st.hints
    ensures r.0.hints.Keys == st.hints.Keys - {id}
    ensures r.0.nextId == st.nextId
    ensures forall k :: k in r.0.hints ==> r.0.hints[k] == st.hints[k]
    ensures Valid(st) ==> Valid(r.0)
  {
    (Store(st.hints - {id}, st.nextId), id in st.hints)
  }

  /** Ids of the rows holding exactly this faculty and text. */
  function RowsWith(st: Store, faculty: string, text: string): set<int>
  {
    set id | id in st.hints && st.hints[id] == Hint(faculty, text)
  }

  /**
   * Round trip of an insert: afterwards the table holds exactly one row
   * with that faculty and text, under the new id, and a second insert of
   * the same text in any letter case and any faculty is refused.
   */
  lemma InsertThenFind(st: Store, h: Hint, other: Hint)
    requires Valid(st)
    requires Insert(st, h).Inserted?
    requires Text.NoCaseEq(other.text, h.text)
    ensures RowsWith(Insert(st, h).st, h.faculty, h.text) == {Insert(st, h).id}
    ensures Insert(Insert(st, h).st, other).UniqueViolation?
  {
    var r := Insert(st, h);
    forall id | id in RowsWith(r.st, h.faculty, h.text) ensures id == r.id {
      if id != r.id {
        assert Text.NoCaseEq(r.st.hints[id].text, h.text);
        assert false;
      }
    }
    assert Text.NoCaseEq(r.st.hints[r.id].text, other.text);
  }
}
