/**
 * The wines table and the five service calls the wines router makes on it:
 * getWines, insertWine, getById, deleteWine and updateWine.  The table is an
 * in-memory sequence of rows in storage order; the serial `wine_id` column is
 * a counter kept beside it.
 */
module WinesService {
  import opened Wrappers
  import opened Http

  /** A row of the wines table. `vintage` and `notes` are nullable columns. */
  datatype Wine = Wine(
    wine_id: nat,
    wine_name: string,
    winery: string,
    varietal: string,
    vintage: Option<string>,
    rating: string,
    notes: Option<string>,
    user_id: int)

  /** What insertWine receives: every column except the generated `wine_id`. */
  datatype NewWine = NewWine(
    wine_name: string,
    winery: string,
    varietal: string,
    vintage: Option<string>,
    rating: string,
    notes: Option<string>,
    user_id: int)

  /**
   * What updateWine receives: for each of the six mutable columns, undefined
   * leaves the column alone, null sets it to NULL, a value overwrites it.
   */
  datatype WinePatch = WinePatch(
    wine_name: Field<string>,
    winery: Field<string>,
    varietal: Field<string>,
    vintage: Field<string>,
    rating: Field<string>,
    notes: Field<string>)

  /** The row an insert stores: the supplied columns under the id the table generates. */
  function Stored(w: NewWine, id: nat): Wine {
    Wine(id, w.wine_name, w.winery, w.varietal, w.vintage, w.rating, w.notes, w.user_id)
  }

  predicate DistinctIds(rows: seq<Wine>) {
    forall i, j :: 0 <= i < j < |rows| ==> rows[i].wine_id != rows[j].wine_id
  }

  // ---------------------------------------------------------------------
  // Reads
  // ---------------------------------------------------------------------

  /** getWines: `select * from wines where user_id = ?`, in storage order. */
  function GetWines(rows: seq<Wine>, userId: int): (r: seq<Wine>)
    ensures forall w :: w in r <==> w in rows && w.user_id == userId
    ensures |r| <= |rows|
  {
    if rows == [] then []
    else (if rows[0].user_id == userId then [rows[0]] else []) + GetWines(rows[1..], userId)
  }

  /** The selection keeps storage order: it distributes over concatenation. */
  lemma {:induction false} GetWinesAppend(a: seq<Wine>, b: seq<Wine>, userId: int)
    ensures GetWines(a + b, userId) == GetWines(a, userId) + GetWines(b, userId)
  {
    if a == [] {
      assert a + b == b;
    } else {
      assert (a + b)[0] == a[0];
      assert (a + b)[1..] == a[1..] + b;
      GetWinesAppend(a[1..], b, userId);
    }
  }

  /** getById: `.where('wine_id', id).first()`, the first matching row or nothing. */
  function GetById(rows: seq<Wine>, id: nat): (r: Option<Wine>)
    ensures r.None? <==> forall i :: 0 <= i < |rows| ==> rows[i].wine_id != id
    ensures r.Some? ==>
      exists i :: 0 <= i < |rows| && rows[i] == r.value && r.value.wine_id == id &&
        forall j :: 0 <= j < i ==> rows[j].wine_id != id
  {
    if rows == [] then None
    else if rows[0].wine_id == id then Some(rows[0])
    else GetById(rows[1..], id)
  }

  /** With distinct ids the first match is the only one. */
  lemma GetByIdUnique(rows: seq<Wine>, k: nat)
    requires DistinctIds(rows) && k < |rows|
    ensures GetById(rows, rows[k].wine_id) == Some(rows[k])
  {
  }

  /** How many rows carry `id`: the affected-row count of a delete or update. */
  function CountId(rows: seq<Wine>, id: nat): (n: nat)
    ensures n <= |rows|
    ensures n == 0 <==> forall i :: 0 <= i < |rows| ==> rows[i].wine_id != id
  {
    if rows == [] then 0
    else (if rows[0].wine_id == id then 1 else 0) + CountId(rows[1..], id)
  }

  // ---------------------------------------------------------------------
  // Delete
  // ---------------------------------------------------------------------

  /** The table after `delete from wines where wine_id = ?`. */
  function WithoutId(rows: seq<Wine>, id: nat): (r: seq<Wine>)
    ensures forall w :: w in r <==> w in rows && w.wine_id != id
    ensures |r| == |rows| - CountId(rows, id)
  {
    if rows == [] then []
    else (if rows[0].wine_id == id then [] else [rows[0]]) + WithoutId(rows[1..], id)
  }

  lemma {:induction false} WithoutIdAppend(a: seq<Wine>, b: seq<Wine>, id: nat)
    ensures WithoutId(a + b, id) == WithoutId(a, id) + WithoutId(b, id)
  {
    if a == [] {
      assert a + b == b;
    } else {
      assert (a + b)[0] == a[0];
      assert (a + b)[1..] == a[1..] + b;
      WithoutIdAppend(a[1..], b, id);
    }
  }

  /** Rows that do not carry the id are all kept, in order. */
  lemma {:induction false} WithoutIdNoMatch(rows: seq<Wine>, id: nat)
    requires forall i :: 0 <= i < |rows| ==> rows[i].wine_id != id
    ensures WithoutId(rows, id) == rows
  {
    if rows != [] {
      WithoutIdNoMatch(rows[1..], id);
    }
  }

  /** Dropping the first row of a table with distinct ids keeps the ids distinct. */
  lemma DistinctTail(rows: seq<Wine>)
    requires DistinctIds(rows) && rows != []
    ensures DistinctIds(rows[1..])
  {
    var tail := rows[1..];
    forall i, j | 0 <= i < j < |tail| ensures tail[i].wine_id != tail[j].wine_id {
      assert tail[i] == rows[i + 1] && tail[j] == rows[j + 1];
    }
  }

  /** Removing row k of a non-empty sequence, split at its first row. */
  lemma SpliceTail(rows: seq<Wine>, k: nat)
    requires 0 < k < |rows|
    ensures rows[..k] + rows[k + 1..] == [rows[0]] + (rows[1..][..k - 1] + rows[1..][k..])
  {
    assert rows[..k] == [rows[0]] + rows[1..][..k - 1];
    assert rows[k + 1..] == rows[1..][k..];
  }

  /** Deleting the id of row k of a table with distinct ids removes exactly that row. */
  lemma {:induction false} WithoutIdRemovesOne(rows: seq<Wine>, k: nat)
    requires DistinctIds(rows) && k < |rows|
    ensures WithoutId(rows, rows[k].wine_id) == rows[..k] + rows[k + 1..]
  {
    var id := rows[k].wine_id;
    var tail := rows[1..];
    if k == 0 {
      forall i | 0 <= i < |tail| ensures tail[i].wine_id != id {
        assert tail[i] == rows[i + 1];
      }
      WithoutIdNoMatch(tail, id);
    } else {
      assert rows[0].wine_id != id;
      DistinctTail(rows);
      assert tail[k - 1] == rows[k];
      WithoutIdRemovesOne(tail, k - 1);
      SpliceTail(rows, k);
    }
  }

  lemma {:induction false} WithoutIdKeepsDistinct(rows: seq<Wine>, id: nat)
    requires DistinctIds(rows)
    ensures DistinctIds(WithoutId(rows, id))
  {
    if rows != [] {
      WithoutIdKeepsDistinct(rows[1..], id);
      var tail := WithoutId(rows[1..], id);
      forall j | 0 <= j < |tail|
        ensures tail[j].wine_id != rows[0].wine_id
      {
        assert tail[j] in rows[1..];
      }
    }
  }

  // ---------------------------------------------------------------------
  // Update
  // ---------------------------------------------------------------------

  /** A patch that would set one of the NOT NULL columns to NULL. */
  predicate ClearsRequired(p: WinePatch) {
    p.wine_name.Null? || p.winery.Null? || p.varietal.Null? || p.rating.Null?
  }

  /** A patch with no column at all once undefined keys are dropped. */
  predicate EmptyPatch(p: WinePatch) {
    p.wine_name.Undefined? && p.winery.Undefined? && p.varietal.Undefined? &&
    p.vintage.Undefined? && p.rating.Undefined? && p.notes.Undefined?
  }

  /** A NOT NULL column after the assignment `f` (which is not null). */
  function Assign(before: string, f: Field<string>): string
    requires !f.Null?
  {
    if f.Given? then f.value else before
  }

  /** A nullable column after the assignment `f`. */
  function AssignNullable(before: Option<string>, f: Field<string>): Option<string> {
    if f.Undefined? then before else f.ToOption()
  }

  /** One row after the update: the patched columns change and nothing else does. */
  function ApplyPatch(w: Wine, p: WinePatch): (r: Wine)
    requires !ClearsRequired(p)
    ensures r.wine_id == w.wine_id && r.user_id == w.user_id
    ensures EmptyPatch(p) ==> r == w
    ensures r.wine_name == if p.wine_name.Given? then p.wine_name.value else w.wine_name
    ensures r.winery == if p.winery.Given? then p.winery.value else w.winery
    ensures r.varietal == if p.varietal.Given? then p.varietal.value else w.varietal
    ensures r.rating == if p.rating.Given? then p.rating.value else w.rating
    ensures r.vintage == if p.vintage.Undefined? then w.vintage else p.vintage.ToOption()
    ensures r.notes == if p.notes.Undefined? then w.notes else p.notes.ToOption()
  {
    w.(wine_name := Assign(w.wine_name, p.wine_name),
       winery := Assign(w.winery, p.winery),
       varietal := Assign(w.varietal, p.varietal),
       vintage := AssignNullable(w.vintage, p.vintage),
       rating := Assign(w.rating, p.rating),
       notes := AssignNullable(w.notes, p.notes))
  }

  /** Re-applying the same patch changes nothing more. */
  lemma ApplyPatchIdempotent(w: Wine, p: WinePatch)
    requires !ClearsRequired(p)
    ensures ApplyPatch(ApplyPatch(w, p), p) == ApplyPatch(w, p)
  {
  }

  /** `update wines set .. where wine_id = ?`: matching rows patched, every other row as it was. */
  function Patched(rows: seq<Wine>, id: nat, p: WinePatch): (r: seq<Wine>)
    requires !ClearsRequired(p)
    ensures |r| == |rows|
    ensures forall i :: 0 <= i < |rows| ==>
      r[i] == if rows[i].wine_id == id then ApplyPatch(rows[i], p) else rows[i]
  {
    if rows == [] then []
    else [if rows[0].wine_id == id then ApplyPatch(rows[0], p) else rows[0]] + Patched(rows[1..], id, p)
  }

  /** After the update, looking the id up gives the patched form of the row it gave before. */
  lemma {:induction false} GetByIdAfterPatch(rows: seq<Wine>, id: nat, p: WinePatch)
    requires !ClearsRequired(p)
    ensures GetById(Patched(rows, id, p), id) ==
      (if GetById(rows, id).Some? then Some(ApplyPatch(GetById(rows, id).value, p)) else None)
  {
    if rows != [] {
      var r := Patched(rows, id, p);
      assert r[1..] == Patched(rows[1..], id, p);
      GetByIdAfterPatch(rows[1..], id, p);
    }
  }

  /**
   * A patch that names only `wine_name` leaves the row as it was with just
   * that column replaced.
   */
  lemma PatchOnlyName(w: Wine, name: string)
    ensures ApplyPatch(w, WinePatch(Given(name), Undefined, Undefined, Undefined, Undefined, Undefined)) ==
      w.(wine_name := name)
  {
  }

  /** The wines table. */
  class WinesTable {
    var rows: seq<Wine>
    /** The next value of the serial `wine_id` column. */
    var nextId: nat

    ghost predicate Valid()
      reads this
    {
      && nextId >= 1
      && (forall i :: 0 <= i < |rows| ==> 1 <= rows[i].wine_id < nextId)
      && DistinctIds(rows)
    }

    constructor ()
      ensures Valid() && rows == [] && nextId == 1
    {
      rows := [];
      nextId := 1;
    }

    /** insertWine: append one row carrying the supplied columns and a fresh id; return that row. */
    method InsertWine(w: NewWine) returns (row: Wine)
      requires Valid()
      modifies this
      ensures Valid()
      ensures row == Stored(w, old(nextId)) && nextId == old(nextId) + 1
      ensures forall i :: 0 <= i < |old(rows)| ==> old(rows)[i].wine_id != row.wine_id
      ensures rows == old(rows) + [row]
    {
      row := Stored(w, nextId);
      rows := rows + [row];
      nextId := nextId + 1;
    }

    /** deleteWine: remove every row carrying the id; return how many went. */
    method DeleteWine(id: nat) returns (count: nat)
      requires Valid()
      modifies this
      ensures Valid()
      ensures rows == WithoutId(old(rows), id) && nextId == old(nextId)
      ensures count == CountId(old(rows), id) && count == |old(rows)| - |rows|
    {
      WithoutIdKeepsDistinct(rows, id);
      count := CountId(rows, id);
      rows := WithoutId(rows, id);
    }

    /**
     * updateWine: apply the patch to every row carrying the id and return the
     * affected-row count. The statement is rejected, and nothing changes, when
     * the patch has no column at all, or when it would put NULL into a NOT NULL
     * column of a row it matches.
     */
    method UpdateWine(id: nat, patch: WinePatch) returns (count: Option<nat>)
      requires Valid()
      modifies this
      ensures Valid() && nextId == old(nextId)
      ensures EmptyPatch(patch) || (ClearsRequired(patch) && CountId(old(rows), id) > 0) ==>
        count.None? && rows == old(rows)
      ensures !EmptyPatch(patch) && ClearsRequired(patch) && CountId(old(rows), id) == 0 ==>
        count == Some(0) && rows == old(rows)
      ensures !EmptyPatch(patch) && !ClearsRequired(patch) ==>
        count == Some(CountId(old(rows), id)) && rows == Patched(old(rows), id, patch)
    {
      var n := CountId(rows, id);
      if EmptyPatch(patch) || (ClearsRequired(patch) && n > 0) {
        return None;
      }
      if !ClearsRequired(patch) {
        rows := Patched(rows, id, patch);
      }
      return Some(n);
    }
  }
}
