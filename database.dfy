/** The database handle the model files share: the four tables and the serial sequences, updated in place. */
module Database {
  import opened Schema

  class Store {
    var users: seq<User>
    var teams: seq<Team>
    var memberships: seq<Membership>
    var tasks: seq<Task>
    var nextUserId: int
    var nextTeamId: int
    var nextTaskId: int

    /** The current contents as a value. */
    function Snapshot(): Db
      reads this
    {
      Db(users, teams, memberships, tasks, nextUserId, nextTeamId, nextTaskId)
    }

    ghost predicate Valid()
      reads this
    {
      WellFormed(Snapshot())
    }

    /** A freshly migrated database. */
    constructor ()
      ensures Valid() && Snapshot() == Empty
    {
      users, teams, memberships, tasks := [], [], [], [];
      nextUserId, nextTeamId, nextTaskId := 1, 1, 1;
    }
  }
}
