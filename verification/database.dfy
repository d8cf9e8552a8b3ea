/** The statements the handlers send to the database, over in-memory tables.

    A write answers `Some(rowcount)` when it commits and `None` when the
    engine raises an error, after which the transaction is rolled back and
    the tables are as before. Whether the engine fails for a reason the
    tables do not show (a lost connection, a rejected value) is the input
    `fault`; a duplicate primary key is decided from the tables. Reads over
    the in-memory tables never fail. */
module Database {
  import opened Wrappers
  import opened Schema

  /** The tables after a write, and what the write call returned. */
  datatype Write = Write(tables: Tables, affected: Option<nat>)

  /** `INSERT INTO user (username, password)`; `role` takes its column default. */
  function InsertUserRow(t: Tables, username: string, password: string, fault: bool): (w: Write)
    ensures w.affected == Some(1) || w.affected == None
    ensures w.affected == Some(1) <==> !fault && username !in t.users
    ensures w.affected == None ==> w.tables == t
    ensures w.affected == Some(1) ==>
      && w.tables.users.Keys == t.users.Keys + {username}
      && w.tables.users[username] == UserRow(password, DefaultRole)
      && AgreeExcept(t.users, w.tables.users, username)
      && w.tables.(users := t.users) == t
  {
    if fault || username in t.users then Write(t, None)
    else Write(t.(users := t.users[username := UserRow(password, DefaultRole)]), Some(1))
  }

  /** `INSERT INTO student (id, name, age, gender, major, phone)`; `version`
      takes its column default. */
  function InsertStudentRow(t: Tables, id: string, f: StudentFields, fault: bool): (w: Write)
    ensures w.affected == Some(1) || w.affected == None
    ensures w.affected == Some(1) <==> !fault && id !in t.students
    ensures w.affected == None ==> w.tables == t
    ensures w.affected == Some(1) ==>
      && w.tables.students.Keys == t.students.Keys + {id}
      && w.tables.students[id] == Student(f, InitialVersion)
      && AgreeExcept(t.students, w.tables.students, id)
      && w.tables.(students := t.students) == t
  {
    if fault || id in t.students then Write(t, None)
    else Write(t.(students := t.students[id := Student(f, InitialVersion)]), Some(1))
  }

  /** The conditional update `SET <fields>, version=version+1 WHERE id=? AND version=?`. */
  function UpdateStudentRow(t: Tables, id: string, f: StudentFields, expected: int, fault: bool): (w: Write)
    ensures w.affected == None <==> fault
    ensures w.affected == Some(1) <==> !fault && id in t.students && t.students[id].version == expected
    ensures !fault ==> w.affected == Some(0) || w.affected == Some(1)
    ensures w.affected != Some(1) ==> w.tables == t
    ensures w.affected == Some(1) ==>
      && w.tables.students.Keys == t.students.Keys
      && w.tables.students[id].fields == f
      && w.tables.students[id].version == t.students[id].version + 1
      && AgreeExcept(t.students, w.tables.students, id)
      && w.tables.(students := t.students) == t
  {
    if fault then Write(t, None)
    else if id in t.students && t.students[id].version == expected then
      Write(t.(students := t.students[id := Student(f, expected + 1)]), Some(1))
    else Write(t, Some(0))
  }

  /** `DELETE FROM student WHERE id=?`. */
  function DeleteStudentRow(t: Tables, id: string, fault: bool): (w: Write)
    ensures w.affected == None <==> fault
    ensures fault ==> w.tables == t
    ensures !fault ==>
      && w.affected == Some(if id in t.students then 1 else 0)
      && w.tables.students.Keys == t.students.Keys - {id}
      && AgreeExcept(t.students, w.tables.students, id)
      && w.tables.(students := t.students) == t
  {
    if fault then Write(t, None)
    else Write(t.(students := t.students - {id}), Some(if id in t.students then 1 else 0))
  }

  /** `SELECT username, role FROM user WHERE username=? AND password=?`: the
      `role` column of each matching row. */
  function SelectLogin(t: Tables, username: string, password: string): (rows: seq<Option<string>>)
    ensures |rows| <= 1
    ensures |rows| == 1 <==> username in t.users && t.users[username].password == password
    ensures |rows| == 1 ==> rows[0] == t.users[username].role
  {
    if username in t.users && t.users[username].password == password
    then [t.users[username].role]
    else []
  }

  /** `SELECT 1 FROM user WHERE username=?`. */
  function SelectUsername(t: Tables, username: string): (rows: seq<int>)
    ensures |rows| > 0 <==> username in t.users
  {
    if username in t.users then [1] else []
  }

  /** `SELECT id, name, age, gender, major, phone, version FROM student WHERE id=?`. */
  function SelectStudent(t: Tables, id: string): (rows: seq<Student>)
    ensures |rows| <= 1
    ensures |rows| == 1 <==> id in t.students
    ensures |rows| == 1 ==> rows[0] == t.students[id]
  {
    if id in t.students then [t.students[id]] else []
  }
}
