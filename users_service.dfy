/**
 * The users table and the three service calls the users router makes on it:
 * insertUser, getUserByUsername and getAllUsernames. The table is an
 * in-memory sequence of rows in storage order; the serial `user_id` column is
 * a counter kept beside it.
 */
module UsersService {
  import opened Wrappers

  /** A row of the users table. The password is stored as given. */
  datatype User = User(
    user_id: nat,
    first_name: string,
    last_name: string,
    username: string,
    password: string)

  /** What insertUser receives: every column except the generated `user_id`. */
  datatype NewUser = NewUser(
    first_name: string,
    last_name: string,
    username: string,
    password: string)

  /** A row of `select username from users`. */
  datatype UsernameRow = UsernameRow(username: string)

  /** The row an insert stores: the supplied columns under the id the table generates. */
  function StoredUser(u: NewUser, id: nat): User {
    User(id, u.first_name, u.last_name, u.username, u.password)
  }

  /** getUserByUsername: `.where('username', name).first()`, the first exact match or nothing. */
  function GetUserByUsername(rows: seq<User>, name: string): (r: Option<User>)
    ensures r.None? <==> forall i :: 0 <= i < |rows| ==> rows[i].username != name
    ensures r.Some? ==>
      exists i :: 0 <= i < |rows| && rows[i] == r.value && r.value.username == name &&
        forall j :: 0 <= j < i ==> rows[j].username != name
  {
    if rows == [] then None
    else if rows[0].username == name then Some(rows[0])
    else GetUserByUsername(rows[1..], name)
  }

  /** getAllUsernames: one `{ username }` per row, in storage order. */
  function GetAllUsernames(rows: seq<User>): (r: seq<UsernameRow>)
    ensures |r| == |rows|
    ensures forall i :: 0 <= i < |rows| ==> r[i].username == rows[i].username
  {
    if rows == [] then [] else [UsernameRow(rows[0].username)] + GetAllUsernames(rows[1..])
  }

  /**
   * After an insert, looking its username up finds a row: the earlier row
   * with that name if there is one, else the new row.
   */
  lemma {:induction false} LookupAfterInsert(rows: seq<User>, u: User)
    ensures GetUserByUsername(rows + [u], u.username) ==
      if GetUserByUsername(rows, u.username).Some? then GetUserByUsername(rows, u.username) else Some(u)
  {
    var all := rows + [u];
    if rows == [] {
      assert all == [u];
    } else {
      assert all[0] == rows[0];
      assert all[1..] == rows[1..] + [u];
      if rows[0].username != u.username {
        LookupAfterInsert(rows[1..], u);
      }
    }
  }

  /** After an insert, the username list has grown by that row's name, at the end. */
  lemma UsernamesAfterInsert(rows: seq<User>, u: User)
    ensures GetAllUsernames(rows + [u]) == GetAllUsernames(rows) + [UsernameRow(u.username)]
  {
    var all := rows + [u];
    assert forall i :: 0 <= i < |rows| ==> all[i] == rows[i];
  }

  /** The users table. */
  class UsersTable {
    var rows: seq<User>
    /** The next value of the serial `user_id` column. */
    var nextId: nat

    ghost predicate Valid()
      reads this
    {
      && nextId >= 1
      && (forall i :: 0 <= i < |rows| ==> 1 <= rows[i].user_id < nextId)
      && (forall i, j :: 0 <= i < j < |rows| ==> rows[i].user_id != rows[j].user_id)
    }

    constructor ()
      ensures Valid() && rows == [] && nextId == 1
    {
      rows := [];
      nextId := 1;
    }

    /** insertUser: append one row carrying the supplied columns and a fresh id; return that row. */
    method InsertUser(u: NewUser) returns (row: User)
      requires Valid()
      modifies this
      ensures Valid()
      ensures row == StoredUser(u, old(nextId)) && nextId == old(nextId) + 1
      ensures forall i :: 0 <= i < |old(rows)| ==> old(rows)[i].user_id != row.user_id
      ensures rows == old(rows) + [row]
    {
      row := StoredUser(u, nextId);
      rows := rows + [row];
      nextId := nextId + 1;
    }
  }
}
