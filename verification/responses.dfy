/** What a handler answers, with the rendering, flashing and redirecting of
    the web framework reduced to one outcome per distinct response. */
module Responses {
  import opened Wrappers
  import opened Schema

  datatype Outcome =
    | LoginFormShown                  // login page rendered, nothing flashed
    | LoginSucceeded                  // 'Login successful!', redirect to the dashboard
    | InvalidCredentials              // 'Invalid credentials', login page rendered
    | RegisterFormShown               // register page rendered, nothing flashed
    | InvalidUsername                 // username rule flashed, register page rendered
    | UsernameTaken                   // 'Username already exists!', register page rendered
    | Registered                      // 'Registration successful!', redirect to login
    | LoggedOut                       // 'Logged out.', redirect to login
    | ToDashboard                     // the root URL's redirect to the dashboard
    | LoginRequired                   // dashboard without a user: redirect to login
    | DashboardShown(username: string)
    | AdminAccessRequired             // 'Admin access required', redirect to the dashboard
    | AddFormShown
    | StudentAdded                    // 'Student added!', redirect to the student list
    | StudentsShown(students: map<string, Student>)
    | EditFormShown(id: string, student: Student)
    | StudentNotFound                 // 'Student not found.', redirect to the student list
    | StudentUpdated                  // 'Student record updated!', redirect to the student list
    | ConcurrentModification          // 'Concurrent modification detected...', redirect to the list
    | StudentDeleted                  // 'Student deleted.', redirect to the student list
    | ScoresShown(name: string, scores: Option<seq<ScoreRow>>)

  /** The effect of one request: the tables and session afterwards, and the response. */
  datatype Step = Step(tables: Tables, session: Session, outcome: Outcome)
}
