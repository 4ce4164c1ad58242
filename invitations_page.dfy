/**
 * The invitation management page: a form that posts a new invitation and shows the link
 * or the error that comes back, and a table of past invitations, each labelled Used,
 * Expired or Active. The page state is a class; what the server answers is a parameter
 * of each handler.
 */
module InvitationsPage {

  import opened Wrappers
  import opened Store
  import Auth

  datatype Status = Used | Expired | Active

  /** The status badge: used first, then expired (strictly past `expiresAt`), else active. */
  function StatusOf(inv: Invitation, now: int): (r: Status)
    ensures r == Used <==> inv.usedAt.Some?
    ensures r == Expired <==> inv.usedAt.None? && inv.expiresAt < now
    ensures r == Active <==> inv.usedAt.None? && now <= inv.expiresAt
  {
    if inv.usedAt.Some? then Used
    else if inv.expiresAt < now then Expired
    else Active
  }

  /**
   * The badge agrees with the sign-in gate: an invitation shows Active exactly when the
   * gate would accept it from a user it is addressed to.
   */
  lemma ActiveIffConsumable(inv: Invitation, email: string, now: int)
    requires !Truthy(inv.email) || inv.email == Some(email)
    ensures StatusOf(inv, now) == Active <==> Auth.Consumable(inv, email, now)
  {
  }

  /** Once expired, an invitation stays expired; an active one was active before. */
  lemma StatusOverTime(inv: Invitation, t: int, later: int)
    requires t <= later
    ensures StatusOf(inv, t) == Expired ==> StatusOf(inv, later) == Expired
    ensures StatusOf(inv, later) == Active ==> StatusOf(inv, t) == Active
  {
  }

  /** The email column shows this when an invitation has no address. */
  const NoEmailLabel := "Not specified"

  /** One table row as shown: the email column and the badge. */
  datatype Row = Row(email: string, status: Status)

  /** What the past-invitations panel shows. */
  datatype Panel = LoadingMessage | NoInvitations | Table(rows: seq<Row>)

  /** What the POST answered: the link, an error body (maybe without a message), or nothing. */
  datatype CreateReply = Created(inviteLink: string) | Rejected(error: Option<string>) | Unreachable

  const CreateFailed := "Failed to create invitation"

  class InvitationsPageState {
    var invitations: seq<Invitation>
    var loading: bool
    var email: string
    var expiresInDays: int
    var creating: bool
    var error: string
    var inviteLink: string

    constructor ()
      ensures invitations == [] && loading && email == "" && expiresInDays == 7
      ensures !creating && error == "" && inviteLink == ""
    {
      invitations := [];
      loading := true;
      email := "";
      expiresInDays := 7;
      creating := false;
      error := "";
      inviteLink := "";
    }

    /** The submit button is disabled while a create is in flight. */
    predicate SubmitDisabled()
      reads this
    {
      creating
    }

    /** The panel: a loading message, the empty message, or one row per invitation in order. */
    function Shown(now: int): (p: Panel)
      reads this
      ensures loading <==> p == LoadingMessage
      ensures !loading && invitations == [] <==> p == NoInvitations
      ensures p.Table? ==> |p.rows| == |invitations|
      ensures p.Table? ==> forall i :: 0 <= i < |invitations| ==>
        p.rows[i] == Row(OrDefault(invitations[i].email, NoEmailLabel), StatusOf(invitations[i], now))
    {
      if loading then LoadingMessage
      else if invitations == [] then NoInvitations
      else
        var invs := invitations;
        Table(seq(|invs|, i requires 0 <= i < |invs| => Row(OrDefault(invs[i].email, NoEmailLabel), StatusOf(invs[i], now))))
    }

    /** `fetchInvitations`: takes the list when the GET succeeded, and stops loading either way. */
    method FetchInvitations(reply: Option<seq<Invitation>>)
      modifies this`invitations, this`loading
      ensures !loading
      ensures invitations == if reply.Some? then reply.value else old(invitations)
    {
      if reply.Some? {
        invitations := reply.value;
      }
      loading := false;
    }

    /**
     * `handleCreateInvitation`, from submit to the end of the request: on success the link
     * is shown, the email field cleared and the list fetched again (`refetch` is what that
     * fetch gets); on failure the server's message, or the generic one, is shown and no link.
     */
    method HandleCreate(reply: CreateReply, refetch: Option<seq<Invitation>>)
      modifies this`invitations, this`loading, this`email, this`creating, this`error, this`inviteLink
      ensures !creating && expiresInDays == old(expiresInDays)
      ensures reply.Created? ==>
        inviteLink == reply.inviteLink && error == "" && email == "" && !loading &&
        invitations == (if refetch.Some? then refetch.value else old(invitations))
      ensures !reply.Created? ==>
        inviteLink == "" && email == old(email) && invitations == old(invitations) && loading == old(loading)
      ensures reply.Rejected? ==>
        error == OrDefault(reply.error, CreateFailed)
      ensures reply.Unreachable? ==> error == CreateFailed
      ensures error != [] <==> !reply.Created?
    {
      creating := true;
      error := "";
      inviteLink := "";
      match reply {
        case Created(link) =>
          inviteLink := link;
          email := "";
          FetchInvitations(refetch);
        case Rejected(message) =>
          error := OrDefault(message, CreateFailed);
        case Unreachable =>
          error := CreateFailed;
      }
      creating := false;
    }
  }
}
