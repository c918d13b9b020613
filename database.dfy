/** The record store the controllers read and write: one collection per
    model, each a sequence the operations reassign, and the counter that
    hands out fresh object ids. */
module Database {
  import opened Records

  /** How a controller answers: 200, 404, 400, the duplicate-session error,
      or 500. */
  datatype Outcome = Ok | NotFound | BadRequest | Duplicate | ServerError

  class Store {
    var students: seq<Student>
    var results: seq<SemesterResult>
    var classes: seq<Cohort>
    var sessions: seq<Session>
    var catalog: seq<ExternalCourse>
    var nextId: nat

    /** The whole store as one value. */
    function Snapshot(): Db
      reads this
    {
      Db(students, results, classes, sessions, catalog, nextId)
    }

    predicate Valid()
      reads this
    {
      Snapshot().Valid()
    }

    constructor ()
      ensures Valid()
      ensures Snapshot() == Db([], [], [], [], [], 0)
    {
      students, results, classes, sessions, catalog, nextId := [], [], [], [], [], 0;
    }
  }
}
