/** The predicate that scopes the editing middleware and commands to private
    chats with a configured administrator (the `ctx.intersect` filter of
    src/index.ts). */
module Gate {
  import opened Types

  /** One configured administrator. */
  datatype Admin = Admin(platform: string, id: string)

  /** `session.platform === admin.platform && session.userId === admin.id`:
      exact string equality; an event without a user id matches no one. */
  predicate AdminMatches(admin: Admin, session: Session) {
    session.platform == admin.platform && session.userId == Some(admin.id)
  }

  /** `admins.some(...)`, scanning the list from the front. */
  function SomeAdminMatches(admins: seq<Admin>, session: Session): (r: bool)
    ensures r <==> exists i :: 0 <= i < |admins| && AdminMatches(admins[i], session)
    decreases |admins|
  {
    if |admins| == 0 then false
    else AdminMatches(admins[0], session) || SomeAdminMatches(admins[1..], session)
  }

  /** Only private chats (channel type 1), and there only listed administrators. */
  function AdminGate(session: Session, admins: seq<Admin>): (r: bool)
    ensures session.channelType != Some(1) ==> !r
    ensures session.channelType == Some(1) ==>
      (r <==> exists i :: 0 <= i < |admins| && AdminMatches(admins[i], session))
  {
    if session.channelType != Some(1) then false
    else SomeAdminMatches(admins, session)
  }

  /** With no administrators configured, nothing passes the gate. */
  lemma NoAdminsNoAccess(session: Session)
    ensures !AdminGate(session, [])
  {
  }

  /** Whether an event passes depends only on its channel, platform and user
      id, compared exactly; the order of the administrator list is irrelevant. */
  lemma GateIgnoresOrder(session: Session, admins: seq<Admin>, shuffled: seq<Admin>)
    requires multiset(admins) == multiset(shuffled)
    ensures AdminGate(session, admins) == AdminGate(session, shuffled)
  {
    if session.channelType == Some(1) {
      if AdminGate(session, admins) {
        var i :| 0 <= i < |admins| && AdminMatches(admins[i], session);
        assert admins[i] in multiset(shuffled);
        var j :| 0 <= j < |shuffled| && shuffled[j] == admins[i];
      }
      if AdminGate(session, shuffled) {
        var j :| 0 <= j < |shuffled| && AdminMatches(shuffled[j], session);
        assert shuffled[j] in multiset(admins);
        var i :| 0 <= i < |admins| && admins[i] == shuffled[j];
      }
    }
  }
}
