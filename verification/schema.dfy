/** The four persisted tables of the student-management application and
    the per-client session, as immutable values. */
module Schema {
  import opened Wrappers

  /** A row of `user`, keyed by username: the stored password digest and
      the `role` column, which is None when it holds SQL NULL. */
  datatype UserRow = UserRow(password: string, role: Option<string>)

  /** The columns of a `student` row that the edit form replaces. */
  datatype StudentFields = StudentFields(
    name: string,
    age: string,
    gender: string,
    major: string,
    phone: string)

  /** A `student` row without its key `id`: the editable columns and the
      optimistic-locking counter. */
  datatype Student = Student(fields: StudentFields, version: int)

  /** A row of `course`; read-only for the application. */
  datatype Course = Course(courseId: string, courseName: string)

  /** A row of `score`; read-only for the application. */
  datatype Score = Score(studentId: string, courseId: string, score: int)

  /** A row of the score query: `s.id, s.name, c.course_id, c.course_name, sc.score`. */
  datatype ScoreRow = ScoreRow(
    studentId: string,
    name: string,
    courseId: string,
    courseName: string,
    score: int)

  /** The database. `user` and `student` are keyed by their primary keys, so a
      key occurs at most once; `course` and `score` keep their row order. */
  datatype Tables = Tables(
    users: map<string, UserRow>,
    students: map<string, Student>,
    courses: seq<Course>,
    scores: seq<Score>)

  /** The two session keys the handlers use. An absent key and a key holding
      `None` look the same through `session.get`, the only way `role` is read. */
  datatype Session = Session(username: Option<string>, role: Option<string>)

  const EmptySession: Session := Session(None, None)

  /** The role the admin gate asks for. */
  const AdminRole: string := "admin"

  /** The `role` a `user` row gets when inserted without one (column default). */
  const DefaultRole: Option<string> := Some("user")

  /** The `version` a `student` row gets when inserted without one (column default). */
  const InitialVersion: int := 1

  /** `m'` holds exactly the entries of `m` at every key other than `k`. */
  ghost predicate AgreeExcept<K, V>(m: map<K, V>, m': map<K, V>, k: K)
  {
    && (forall j :: j in m && j != k ==> j in m' && m'[j] == m[j])
    && (forall j :: j in m' && j != k ==> j in m)
  }
}
