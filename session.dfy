/** req.session: the fields the auth handlers write and the team handlers read. */
module Sessions {
  import opened Wrappers

  class Session {
    var userId: Option<int>
    var userEmail: Option<string>
    var isAdmin: Option<bool>

    /** A new visitor's session: nothing stored yet. */
    constructor ()
      ensures userId == None && userEmail == None && isAdmin == None
    {
      userId, userEmail, isAdmin := None, None, None;
    }
  }
}
