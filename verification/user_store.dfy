/**
 The users table as the controller sees it through its two queries: "the
 first row whose email equals the given one" and "insert a row, returning its
 AUTO_INCREMENT id". The table is a sequence of rows in insertion order plus
 the next id the table will hand out.
 */
module UserStore {
  import opened JsValues

  /** A row of the users table; `password` holds the stored hash, never the plaintext. */
  datatype User = User(id: nat, name: string, email: string, password: string)

  datatype Store = Store(rows: seq<User>, nextId: nat)

  /** The result of an insert: the new table and the id given to the new row. */
  datatype Inserted = Inserted(store: Store, insertId: nat)

  /** A fresh table: no rows, and AUTO_INCREMENT starts at 1. */
  const Empty := Store([], 1)

  /** The table invariant: no two rows share an email, and ids are positive,
      below `nextId`, and increase in insertion order (so they are distinct). */
  predicate Valid(s: Store) {
    && 1 <= s.nextId
    && (forall i, j | 0 <= i < j < |s.rows| :: s.rows[i].email != s.rows[j].email)
    && (forall i, j | 0 <= i < j < |s.rows| :: s.rows[i].id < s.rows[j].id)
    && (forall i | 0 <= i < |s.rows| :: 1 <= s.rows[i].id < s.nextId)
  }

  /** Some row of `rows` has email `email`. */
  predicate HasEmail(rows: seq<User>, email: string) {
    exists i | 0 <= i < |rows| :: rows[i].email == email
  }

  /** The position of the first row whose email is `email`, if any. */
  function IndexOfEmail(rows: seq<User>, email: string): (k: Option<nat>)
    ensures k.Some? ==> k.value < |rows| && rows[k.value].email == email
    ensures k.Some? ==> forall j | 0 <= j < k.value :: rows[j].email != email
    ensures k.None? <==> !HasEmail(rows, email)
  {
    if |rows| == 0 then None
    else if rows[0].email == email then Some(0)
    else
      match IndexOfEmail(rows[1..], email)
      case None =>
        assert forall j | 1 <= j < |rows| :: rows[j] == rows[1..][j - 1];
        None
      case Some(k) =>
        assert forall j | 1 <= j <= k + 1 :: rows[j] == rows[1..][j - 1];
        Some(k + 1)
  }

  /** `SELECT * FROM users WHERE email = ?` followed by `rows[0]`: the first
      matching row, or nothing. An absent email binds SQL NULL, which equals
      no row. */
  function FindUserByEmail(s: Store, email: Field): (u: Option<User>)
    ensures u.Some? ==> email.Str? && u.value in s.rows && u.value.email == email.text
    ensures u.None? <==> email.Absent? || !HasEmail(s.rows, email.text)
  {
    match email
    case Absent => None
    case Str(e) =>
      match IndexOfEmail(s.rows, e)
      case None => None
      case Some(k) => Some(s.rows[k])
  }

  /** `INSERT INTO users (name, email, password) VALUES (?, ?, ?)`, returning
      the row's id. The new row comes last, keeps the given fields, and its id
      is used by no earlier row of a valid table. */
  function CreateUser(s: Store, name: string, email: string, hashed: string): (r: Inserted)
    ensures |r.store.rows| == |s.rows| + 1 && r.store.rows[..|s.rows|] == s.rows
    ensures r.store.rows[|s.rows|] == User(r.insertId, name, email, hashed)
    ensures Valid(s) ==> forall i | 0 <= i < |s.rows| :: s.rows[i].id < r.insertId
  {
    var id := s.nextId;
    Inserted(Store(s.rows + [User(id, name, email, hashed)], id + 1), id)
  }

  /** In a valid table a row is the only one with its email, so the lookup
      returns exactly that row. */
  lemma FindInValidStore(s: Store, i: nat)
    requires Valid(s) && i < |s.rows|
    ensures FindUserByEmail(s, Str(s.rows[i].email)) == Some(s.rows[i])
  {
    var k := IndexOfEmail(s.rows, s.rows[i].email);
    assert k.Some?;
    assert !(k.value < i) by {
      assert s.rows[k.value].email == s.rows[i].email;
    }
    assert !(i < k.value);
  }

  /** Inserting a row whose email is not yet in a valid table keeps the table valid. */
  lemma CreateUserPreservesValid(s: Store, name: string, email: string, hashed: string)
    requires Valid(s) && !HasEmail(s.rows, email)
    ensures Valid(CreateUser(s, name, email, hashed).store)
  {
    var t := CreateUser(s, name, email, hashed).store;
    forall i, j | 0 <= i < j < |t.rows|
      ensures t.rows[i].email != t.rows[j].email && t.rows[i].id < t.rows[j].id
    {
      assert t.rows[i] == s.rows[i];
      if j < |s.rows| {
        assert t.rows[j] == s.rows[j];
      }
    }
    forall i | 0 <= i < |t.rows|
      ensures 1 <= t.rows[i].id < t.nextId
    {
      if i < |s.rows| {
        assert t.rows[i] == s.rows[i];
      }
    }
  }

  /** After inserting an email that was not in the table, looking it up finds
      exactly the inserted row. */
  lemma FindAfterCreate(s: Store, name: string, email: string, hashed: string)
    requires !HasEmail(s.rows, email)
    ensures FindUserByEmail(CreateUser(s, name, email, hashed).store, Str(email))
              == Some(User(s.nextId, name, email, hashed))
  {
    var t := CreateUser(s, name, email, hashed).store;
    var k := IndexOfEmail(t.rows, email);
    assert t.rows[|s.rows|].email == email;
    assert k.Some?;
    assert !(k.value < |s.rows|) by {
      assert forall j | 0 <= j < |s.rows| :: t.rows[j] == s.rows[j];
    }
  }
}
