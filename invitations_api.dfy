/**
 * The invitations endpoint. POST lets a signed-in user invite an email address that has
 * no account yet: it stores an invitation with a 32-character token, expiring a number
 * of days later (seven unless the request says otherwise), and answers with the link
 * that carries the token. GET lists the caller's own invitations, newest first.
 */
module InvitationsApi {

  import opened Wrappers
  import opened Ordering
  import opened Store
  import opened Http
  import Auth

  /** Length of the random token (`nanoid(32)`). */
  const TokenLength := 32

  /** Lifetime of an invitation when the request gives none. */
  const DefaultExpiryDays := 7

  /** The part of the new invitation the POST answers with, and the link to send. */
  datatype Created = Created(id: Id, email: Option<string>, expiresAt: int, inviteLink: string)

  function ExpiryDays(expiresInDays: Option<int>): (r: int)
    ensures expiresInDays.None? ==> r == DefaultExpiryDays
    ensures expiresInDays.Some? ==> r == expiresInDays.value
  {
    expiresInDays.GetOr(DefaultExpiryDays)
  }

  /** `${NEXTAUTH_URL}/invite/${token}` */
  function InviteLink(baseUrl: string, token: string): (r: string)
    ensures |r| == |baseUrl| + 8 + |token|
    ensures r[..|baseUrl|] == baseUrl && r[|r| - |token|..] == token
  {
    baseUrl + "/invite/" + token
  }

  /** The token can be read back from the end of the link. */
  lemma LinkCarriesToken(baseUrl: string, token: string)
    requires |token| == TokenLength
    ensures InviteLink(baseUrl, token)[|baseUrl| + 8..] == token
    ensures InviteLink(baseUrl, token)[|baseUrl|..|baseUrl| + 8] == "/invite/"
  {
    var link := InviteLink(baseUrl, token);
    assert link == baseUrl + ("/invite/" + token);
  }

  predicate TokenTaken(invs: seq<Invitation>, token: string)
  {
    exists i :: 0 <= i < |invs| && invs[i].token == token
  }

  /**
   * POST /api/invitations. `token` stands for the random token and `now` for the clock.
   * The checks run in the code's order; a token that is already taken breaks the unique
   * constraint and ends in the generic 500.
   */
  method Create(db: Library, caller: Option<Id>, email: Option<string>, expiresInDays: Option<int>,
                now: int, token: string, baseUrl: string)
    returns (r: Response<Created>)
    requires db.Valid() && |token| == TokenLength
    modifies db`invitations, db`nextId
    ensures db.Valid()
    ensures caller.None? ==> r == Unauthorized()
    ensures caller.Some? && !Truthy(email) ==> r == Error(400, "Email is required")
    ensures caller.Some? && Truthy(email) && email.value in db.users ==> r == Error(400, "User already exists")
    ensures caller.Some? && Truthy(email) && email.value !in db.users && TokenTaken(old(db.invitations), token) ==>
      r == Error(500, "Failed to create invitation")
    ensures r.Ok? <==>
      caller.Some? && Truthy(email) && email.value !in db.users && !TokenTaken(old(db.invitations), token)
    ensures r.Error? ==> db.invitations == old(db.invitations) && db.nextId == old(db.nextId)
    ensures r.Ok? ==>
      var inv := Invitation(old(db.nextId), token, email, caller.value, now,
                            now + ExpiryDays(expiresInDays) * DayMs, None);
      db.invitations == old(db.invitations) + [inv] &&
      r.body == Created(inv.id, email, inv.expiresAt, InviteLink(baseUrl, token))
  {
    if caller.None? {
      return Unauthorized();
    }
    if !Truthy(email) {
      return Error(400, "Email is required");
    }
    if email.value in db.users {
      return Error(400, "User already exists");
    }
    var expiresAt := now + ExpiryDays(expiresInDays) * DayMs;
    if Auth.TokenIndex(db.invitations, token).Some? {
      return Error(500, "Failed to create invitation");
    }
    var inv := db.AddInvitation(token, email, caller.value, now, expiresAt);
    r := Ok(Created(inv.id, email, expiresAt, InviteLink(baseUrl, token)));
  }

  /**
   * A fresh invitation admits its addressee: until it expires, a sign-in with that email
   * and no registered account is not refused.
   */
  lemma CreatedInvitationAdmits(users: map<string, Id>, invs: seq<Invitation>, inv: Invitation,
                                cookie: Option<string>, now: int)
    requires inv in invs && Truthy(inv.email) && inv.email.value !in users
    requires inv.usedAt.None? && now <= inv.expiresAt
    ensures Auth.GateChoice(users, invs, inv.email, cookie, now) != Auth.Refuse
    ensures Auth.GateChoice(users, invs, inv.email, cookie, now).Consume?
  {
    var k :| 0 <= k < |invs| && invs[k] == inv;
    assert Auth.Consumable(invs[k], inv.email.value, now);
  }

  /** An invitation addressed to one email never admits a different one. */
  lemma AddressedInvitationIsPersonal(inv: Invitation, other: string, now: int)
    requires Truthy(inv.email) && other != inv.email.value
    ensures !Auth.Consumable(inv, other, now)
  {
  }

  function CreatedAt(inv: Invitation): int
  {
    inv.createdAt
  }

  /** `findMany({ where: { createdBy }, orderBy: { createdAt: 'desc' } })` */
  function InvitationsBy(invs: seq<Invitation>, user: Id): (r: seq<Invitation>)
    ensures forall i, j :: 0 <= i < j < |r| ==> r[i].createdAt >= r[j].createdAt
    ensures forall i :: 0 <= i < |r| ==> r[i] in invs && r[i].createdBy == user
    ensures forall i :: 0 <= i < |invs| && invs[i].createdBy == user ==> invs[i] in r
    ensures forall i :: 0 <= i < |invs| && invs[i].createdBy == user ==> multiset(r)[invs[i]] == multiset(invs)[invs[i]]
  {
    var r := Listing(invs, (inv: Invitation) => inv.createdBy == user, CreatedAt);
    assert SortedDesc(r, CreatedAt);
    r
  }

  /** GET /api/invitations */
  function List(db: Library, caller: Option<Id>): (r: Response<seq<Invitation>>)
    reads db
    ensures caller.None? <==> r == Unauthorized()
    ensures r.Ok? ==> r.body == InvitationsBy(db.invitations, caller.value)
  {
    if caller.None? then Unauthorized() else Ok(InvitationsBy(db.invitations, caller.value))
  }
}
