/**
 * The notes table of notes.php: the add, edit and delete handlers, each
 * scoped by the current user's id, the category list, the filtered and
 * ordered note listing, and the content preview.
 */
module Notes {
  import opened Php
  import opened Rows

  /** A row of the notes table; the timestamps are seconds. */
  datatype Note = Note(
    id: int,
    owner: int,
    title: string,
    content: string,
    category: string,
    createdAt: int,
    updatedAt: int)

  /** `WHERE id = ? AND user_id = ?` */
  function OwnedNote(id: int, owner: int): Note -> bool
  {
    (n: Note) => n.id == id && n.owner == owner
  }

  /** `WHERE user_id = ?` */
  function NoteOf(owner: int): Note -> bool
  {
    (n: Note) => n.owner == owner
  }

  /** Everything one user can see of the notes table. */
  function NotesOwnedBy(rows: seq<Note>, owner: int): seq<Note>
  {
    Select(rows, NoteOf(owner))
  }

  /** The primary key column. */
  function NoteId(n: Note): int
  {
    n.id
  }

  /** No two positions of the table hold the same note id. */
  ghost predicate NotesKeyedById(rows: seq<Note>)
  {
    DistinctBy(rows, NoteId)
  }

  // ---------------------------------------------------------------------------
  // The table transitions, as functions of the old table

  /** The ownership check `SELECT id FROM notes WHERE id = ? AND user_id = ?` (and the edit form's lookup). */
  function FindNote(rows: seq<Note>, id: int, owner: int): (r: Option<Note>)
    ensures r.Some? ==> r.value in rows && r.value.id == id && r.value.owner == owner
    ensures r.None? <==> forall n :: n in rows ==> !OwnedNote(id, owner)(n)
  {
    if rows == [] then None
    else if rows[0].id == id && rows[0].owner == owner then Some(rows[0])
    else
      assert forall n :: n in rows ==> n == rows[0] || n in rows[1..];
      FindNote(rows[1..], id, owner)
  }

  function Rewrite(title: string, content: string, category: string, now: int): Note -> Note
  {
    (n: Note) => n.(title := title, content := content, category := category, updatedAt := now)
  }

  /** `UPDATE notes SET title, content, category, updated_at = NOW() WHERE id = ? AND user_id = ?` */
  function NoteEdited(rows: seq<Note>, id: int, owner: int, title: string, content: string, category: string, now: int): seq<Note>
  {
    UpdateWhere(rows, OwnedNote(id, owner), Rewrite(title, content, category, now))
  }

  /** `DELETE FROM notes WHERE id = ? AND user_id = ?` */
  function NoteDeleted(rows: seq<Note>, id: int, owner: int): seq<Note>
  {
    DeleteWhere(rows, OwnedNote(id, owner))
  }

  // ---------------------------------------------------------------------------
  // Properties of the transitions

  /** Editing or deleting a note never changes what another user sees. */
  lemma NoteCrossOwnerIsolation(rows: seq<Note>, id: int, owner: int, other: int,
                                title: string, content: string, category: string, now: int)
    requires other != owner
    ensures NotesOwnedBy(NoteEdited(rows, id, owner, title, content, category, now), other) == NotesOwnedBy(rows, other)
    ensures NotesOwnedBy(NoteDeleted(rows, id, owner), other) == NotesOwnedBy(rows, other)
  {
    UpdateWhereOutsideView(rows, OwnedNote(id, owner), Rewrite(title, content, category, now), NoteOf(other));
    DeleteWhereOutsideView(rows, OwnedNote(id, owner), NoteOf(other));
  }

  /** A note id the caller does not own (missing, or another user's) leaves the table as it was. */
  lemma NoteNoMatchIsNoOp(rows: seq<Note>, id: int, owner: int, title: string, content: string, category: string, now: int)
    requires FindNote(rows, id, owner).None?
    ensures NoteEdited(rows, id, owner, title, content, category, now) == rows
    ensures NoteDeleted(rows, id, owner) == rows
  {
    UpdateWhereNoMatch(rows, OwnedNote(id, owner), Rewrite(title, content, category, now));
    DeleteWhereNoMatch(rows, OwnedNote(id, owner));
  }

  /** The edited note carries the submitted title, content and category and the edit time; its id, owner and creation time stay. */
  lemma NoteEditedRow(rows: seq<Note>, id: int, owner: int, title: string, content: string, category: string, now: int, i: int)
    requires 0 <= i < |rows| && rows[i].id == id && rows[i].owner == owner
    ensures var e := NoteEdited(rows, id, owner, title, content, category, now)[i];
            e == Note(id, owner, title, content, category, rows[i].createdAt, now)
  {
  }

  /** A second delete of the same note removes nothing more. */
  lemma NoteDeleteIdempotent(rows: seq<Note>, id: int, owner: int)
    ensures NoteDeleted(NoteDeleted(rows, id, owner), id, owner) == NoteDeleted(rows, id, owner)
  {
    DeleteWhereNoMatch(NoteDeleted(rows, id, owner), OwnedNote(id, owner));
  }

  lemma AppendFreshNote(rows: seq<Note>, n: Note)
    requires NotesKeyedById(rows) && forall m :: m in rows ==> m.id < n.id
    ensures NotesKeyedById(rows + [n]) && forall m :: m in rows + [n] ==> m in rows || m == n
  {
    AppendKeepsDistinct(rows, n, NoteId);
    forall m | m in rows + [n]
      ensures m in rows || m == n
    {
    }
  }

  /** A new note shows up at the end of its owner's notes and nowhere else. */
  lemma AppendNoteVisibility(rows: seq<Note>, n: Note)
    ensures NotesOwnedBy(rows + [n], n.owner) == NotesOwnedBy(rows, n.owner) + [n]
    ensures forall o :: o != n.owner ==> NotesOwnedBy(rows + [n], o) == NotesOwnedBy(rows, o)
  {
    SelectAppend(rows, n, NoteOf(n.owner));
    forall o | o != n.owner
      ensures NotesOwnedBy(rows + [n], o) == NotesOwnedBy(rows, o)
    {
      SelectAppend(rows, n, NoteOf(o));
    }
  }

  /** An UPDATE that keeps every note's id keeps the table keyed by id, with every id below the counter. */
  lemma NoteUpdateKeepsIds(rows: seq<Note>, nextId: int, matches: Note -> bool, f: Note -> Note)
    requires NotesKeyedById(rows) && forall n :: n in rows ==> 0 < n.id < nextId
    requires forall n :: f(n).id == n.id
    ensures NotesKeyedById(UpdateWhere(rows, matches, f))
    ensures forall n :: n in UpdateWhere(rows, matches, f) ==> 0 < n.id < nextId
  {
    var r := UpdateWhere(rows, matches, f);
    UpdateWhereKeepsDistinct(rows, matches, f, NoteId);
    forall n | n in r
      ensures 0 < n.id < nextId
    {
      var i :| 0 <= i < |r| && r[i] == n;
      assert rows[i] in rows;
    }
  }

  // ---------------------------------------------------------------------------
  // The table and its request handlers

  class NoteTable {
    var rows: seq<Note>
    /** The AUTO_INCREMENT counter of the notes table. */
    var nextId: int

    ghost predicate Valid()
      reads this
    {
      0 < nextId && NotesKeyedById(rows) && forall n :: n in rows ==> 0 < n.id < nextId
    }

    constructor ()
      ensures Valid() && rows == [] && nextId == 1
    {
      rows := [];
      nextId := 1;
    }

    /** add_note: one new note owned by the caller, created at `now`. */
    method AddNote(owner: int, title: string, content: string, category: string, now: int)
      requires Valid()
      modifies this
      ensures Valid() && nextId == old(nextId) + 1
      ensures rows == old(rows) + [Note(old(nextId), owner, title, content, category, now, now)]
      ensures NotesOwnedBy(rows, owner) == NotesOwnedBy(old(rows), owner) + [rows[|rows| - 1]]
      ensures forall o :: o != owner ==> NotesOwnedBy(rows, o) == NotesOwnedBy(old(rows), o)
    {
      var n := Note(nextId, owner, title, content, category, now, now);
      AppendFreshNote(rows, n);
      AppendNoteVisibility(rows, n);
      rows := rows + [n];
      nextId := nextId + 1;
    }

    /**
     * edit_note: only with a `note_id` field, and only once the note is
     * found to belong to the caller, its title, content and category are
     * replaced and its update time set to `now`. Otherwise nothing changes.
     */
    method EditNote(noteId: Option<int>, owner: int, title: string, content: string, category: string, now: int)
      requires Valid()
      modifies this
      ensures Valid() && nextId == old(nextId)
      ensures noteId.None? ==> rows == old(rows)
      ensures noteId.Some? ==> rows == NoteEdited(old(rows), noteId.value, owner, title, content, category, now)
    {
      if noteId.Some? {
        var id := noteId.value;
        var found := FindNote(rows, id, owner);
        if found.Some? {
          NoteUpdateKeepsIds(rows, nextId, OwnedNote(id, owner), Rewrite(title, content, category, now));
          rows := NoteEdited(rows, id, owner, title, content, category, now);
        } else {
          NoteNoMatchIsNoOp(rows, id, owner, title, content, category, now);
        }
      }
    }

    /** delete_note: removes the caller's note with that id, if any; other notes stay, in order. */
    method DeleteNote(id: int, owner: int)
      requires Valid()
      modifies this
      ensures Valid() && nextId == old(nextId)
      ensures rows == NoteDeleted(old(rows), id, owner)
    {
      DeleteWhereKeepsDistinct(rows, OwnedNote(id, owner), NoteId);
      rows := NoteDeleted(rows, id, owner);
    }
  }

  // ---------------------------------------------------------------------------
  // Categories

  /** Strict code-point order on text. */
  predicate LexLess(a: string, b: string)
  {
    LexLeq(a, b) && a != b
  }

  ghost predicate StrictlyAscending(s: seq<string>)
  {
    forall i, j :: 0 <= i < j < |s| ==> LexLess(s[i], s[j])
  }

  /** Adds c to a strictly ascending list of texts unless it is already there. */
  function InsertDistinct(s: seq<string>, c: string): (r: seq<string>)
    requires StrictlyAscending(s)
    ensures StrictlyAscending(r)
    ensures forall x :: x in r <==> x in s || x == c
  {
    if s == [] then [c]
    else if s[0] == c then s
    else if LexLeq(c, s[0]) then
      forall j | 0 < j < |s|
        ensures LexLess(c, s[j])
      {
        LexLeqTransitive(c, s[0], s[j]);
        if c == s[j] {
          LexLeqAntisymmetric(s[0], s[j]);
        }
      }
      [c] + s
    else
      LexLeqTotal(c, s[0]);
      var rest := InsertDistinct(s[1..], c);
      assert forall x :: x in s <==> x == s[0] || x in s[1..];
      forall j | 0 <= j < |rest|
        ensures LexLess(s[0], rest[j])
      {
        assert rest[j] in rest;
        if rest[j] != c {
          assert rest[j] in s[1..];
          var k :| 0 <= k < |s[1..]| && s[1..][k] == rest[j];
          assert s[k + 1] == rest[j];
        }
      }
      [s[0]] + rest
  }

  /** The user has a note filed under category c. */
  predicate HasCategory(rows: seq<Note>, owner: int, c: string)
  {
    exists n :: n in rows && n.owner == owner && n.category == c
  }

  /**
   * `SELECT DISTINCT category ... WHERE user_id = ? AND category != ''
   * ORDER BY category` with the loop that collects it: each non-empty
   * category of the user's notes exactly once, in ascending order.
   */
  method Categories(rows: seq<Note>, owner: int) returns (categories: seq<string>)
    ensures StrictlyAscending(categories)
    ensures forall c :: c in categories <==> c != "" && HasCategory(rows, owner, c)
  {
    categories := [];
    for i := 0 to |rows|
      invariant StrictlyAscending(categories)
      invariant forall c :: c in categories <==> c != "" && HasCategory(rows[..i], owner, c)
    {
      var n := rows[i];
      assert rows[..i + 1] == rows[..i] + [n];
      if n.owner == owner && n.category != "" {
        categories := InsertDistinct(categories, n.category);
      }
    }
    assert rows[..|rows|] == rows;
  }

  // ---------------------------------------------------------------------------
  // The note listing

  /** `isset($_GET[...]) ? $_GET[...] : ''`: a missing parameter reads as the empty text. */
  function ParamOrEmpty(param: Option<string>): (r: string)
    ensures param.None? ==> IsEmpty(r)
    ensures param.Some? ==> r == param.value
  {
    match param
    case Some(s) => s
    case None => ""
  }

  /**
   * The WHERE clause the listing assembles: the user's notes, restricted to
   * the category when `!empty($categoryFilter)`, and to notes whose title
   * or content contains the search text when `!empty($searchQuery)`. PHP's
   * empty() also holds for "0", so neither "0" filter restricts anything.
   */
  predicate Listed(n: Note, owner: int, category: string, search: string)
  {
    n.owner == owner
    && (IsEmpty(category) || n.category == category)
    && (IsEmpty(search) || Contains(n.title, search) || Contains(n.content, search))
  }

  function ListedBy(owner: int, category: string, search: string): Note -> bool
  {
    (n: Note) => Listed(n, owner, category, search)
  }

  /** Without `category` and `search` parameters the listing holds all of the user's notes. */
  lemma AbsentFiltersListAll(n: Note, owner: int)
    ensures ListedBy(owner, ParamOrEmpty(None), ParamOrEmpty(None))(n) <==> n.owner == owner
  {
  }

  /** `ORDER BY updated_at DESC` */
  function ByUpdate(): Note -> Key
  {
    (n: Note) => Num(n.updatedAt)
  }

  /**
   * The note listing: every note of the user that passes both filters,
   * exactly once, most recently updated first.
   */
  method ListNotes(rows: seq<Note>, owner: int, categoryParam: Option<string>, searchParam: Option<string>)
    returns (notes: seq<Note>)
    ensures var category, search := ParamOrEmpty(categoryParam), ParamOrEmpty(searchParam);
            forall n :: n in notes <==>
              n in rows && n.owner == owner
              && (IsEmpty(category) || n.category == category)
              && (IsEmpty(search) || Contains(n.title, search) || Contains(n.content, search))
    ensures multiset(notes) == multiset(Select(rows, ListedBy(owner, ParamOrEmpty(categoryParam), ParamOrEmpty(searchParam))))
    ensures forall i, j :: 0 <= i < j < |notes| ==> notes[j].updatedAt <= notes[i].updatedAt
  {
    var keep := ListedBy(owner, ParamOrEmpty(categoryParam), ParamOrEmpty(searchParam));
    notes := SelectOrdered(rows, keep, ByUpdate(), Desc);
    forall i, j | 0 <= i < j < |notes|
      ensures notes[j].updatedAt <= notes[i].updatedAt
    {
      assert InOrder(Desc, ByUpdate()(notes[i]), ByUpdate()(notes[j]));
    }
  }

  /**
   * Both filters narrow the listing, never widen it: with a category and a
   * search text given, a note is listed exactly when it is listed for each
   * of them alone.
   */
  lemma FiltersCombine(n: Note, owner: int, category: string, search: string)
    ensures Listed(n, owner, category, search) <==> Listed(n, owner, category, "") && Listed(n, owner, "", search)
  {
  }

  /**
   * A category or search value of "0" filters nothing, although "0" is a
   * category the category list can offer.
   */
  lemma ZeroFilterIgnored(rows: seq<Note>, owner: int, n: Note)
    requires n in rows && n.owner == owner && n.category == "0"
    ensures "0" != "" && HasCategory(rows, owner, "0")
    ensures forall m :: Listed(m, owner, "0", "0") <==> Listed(m, owner, "", "")
  {
  }

  /** notes.php shows content of more than 150 characters as its first 150 characters and "...". */
  function ContentPreview(content: string): (r: string)
    ensures |r| <= 153
    ensures |content| <= 150 ==> r == content
    ensures |content| > 150 ==> IsPrefix(content[..150], r) && r[150..] == "..."
  {
    Truncate(content, 150)
  }
}
