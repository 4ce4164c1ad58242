/**
 * The sign-in callbacks of the authentication setup. `signIn` admits a registered user
 * at once; a new user needs a non-empty email and a consumable invitation, looked for first by the
 * token of the `inviteToken` cookie, then among the invitations addressed to that email,
 * then among the general (email-less) ones. Admitting a new user consumes exactly that one
 * invitation. `session` copies the user's id into the session.
 */
module Auth {

  import opened Wrappers
  import opened Ordering
  import opened Store

  /** Where a refused sign-in is sent. */
  const UnauthorizedPage := "/auth/unauthorized"

  /** `true`, or the page a refused sign-in is redirected to. */
  datatype SignInResult = Admit | Deny(redirect: string)

  /**
   * Unused, not expired (expiry is inclusive), and general or addressed to this email. As in
   * the code's truthiness test, an invitation whose email is empty counts as general.
   */
  predicate Consumable(inv: Invitation, email: string, now: int)
  {
    inv.usedAt.None? && inv.expiresAt >= now && (!Truthy(inv.email) || inv.email.value == email)
  }

  /** The `findFirst` of the fallback path for invitations addressed to `email`. */
  predicate AvailableFor(inv: Invitation, email: string, now: int)
  {
    inv.email == Some(email) && inv.expiresAt >= now && inv.usedAt.None?
  }

  /** The `findFirst` of the fallback path for general invitations: it matches a null email only. */
  predicate AvailableToAnyone(inv: Invitation, now: int)
  {
    inv.email.None? && inv.expiresAt >= now && inv.usedAt.None?
  }

  /** `invitation.findUnique({ where: { token } })` */
  function TokenIndex(invs: seq<Invitation>, token: string): (r: Option<nat>)
    ensures r.Some? ==> r.value < |invs| && invs[r.value].token == token
    ensures r.None? ==> forall i :: 0 <= i < |invs| ==> invs[i].token != token
  {
    FirstIndex(invs, (inv: Invitation) => inv.token == token)
  }

  /** The cookie's token when it is set and non-empty. */
  function CookieToken(cookie: Option<string>): Option<string>
  {
    if Truthy(cookie) then cookie else None
  }

  /** The invitation the cookie's token names, when it is consumable for `email`. */
  function CookieInvitation(invs: seq<Invitation>, cookie: Option<string>, email: string, now: int): (r: Option<nat>)
    ensures r.Some? ==> r.value < |invs| && Consumable(invs[r.value], email, now)
    ensures r.Some? ==> CookieToken(cookie).Some? && invs[r.value].token == CookieToken(cookie).value
  {
    if CookieToken(cookie).None? then None
    else
      var t := TokenIndex(invs, CookieToken(cookie).value);
      if t.Some? && Consumable(invs[t.value], email, now) then t else None
  }

  /** What the gate decides: admit a registered user, consume one invitation, or refuse. */
  datatype Choice = AlreadyRegistered | Consume(index: nat) | Refuse

  /**
   * The decision `signIn` takes, in the order the code takes it. A registered email is
   * admitted; a new user without a non-empty email is refused. Otherwise it consumes only a
   * consumable invitation, prefers the cookie's invitation, then one addressed to the
   * user's email, then a general one, and refuses exactly when all three lookups fail;
   * whenever nothing at all is consumable for the email, it refuses.
   */
  function GateChoice(users: map<string, Id>, invs: seq<Invitation>, email: Option<string>,
                      cookie: Option<string>, now: int): (c: Choice)
    ensures c == AlreadyRegistered <==> email.Some? && email.value in users
    ensures c.Consume? ==> Truthy(email) && c.index < |invs| && Consumable(invs[c.index], email.value, now)
    ensures c == Refuse <==>
      !(email.Some? && email.value in users) &&
      (!Truthy(email) ||
       (CookieInvitation(invs, cookie, email.value, now).None? &&
        forall i :: 0 <= i < |invs| ==> !AvailableFor(invs[i], email.value, now) && !AvailableToAnyone(invs[i], now)))
    ensures (!(email.Some? && email.value in users) &&
             (!Truthy(email) || forall i :: 0 <= i < |invs| ==> !Consumable(invs[i], email.value, now))) ==>
      c == Refuse
    ensures Truthy(email) && email.value !in users && CookieInvitation(invs, cookie, email.value, now).Some? ==>
      c == Consume(CookieInvitation(invs, cookie, email.value, now).value)
    ensures c.Consume? && invs[c.index].email.None? && Some(c.index) != CookieInvitation(invs, cookie, email.value, now) ==>
      forall i :: 0 <= i < |invs| && invs[i].email == email ==> !Consumable(invs[i], email.value, now)
  {
    if email.Some? && email.value in users then AlreadyRegistered
    else if !Truthy(email) then Refuse
    else
      var e := email.value;
      var byToken := CookieInvitation(invs, cookie, e, now);
      if byToken.Some? then Consume(byToken.value)
      else
        match FirstIndex(invs, (inv: Invitation) => AvailableFor(inv, e, now))
        case Some(k) => Consume(k)
        case None =>
          match FirstIndex(invs, (inv: Invitation) => AvailableToAnyone(inv, now))
          case Some(k) => Consume(k)
          case None =>
            assert forall i :: 0 <= i < |invs| ==> !AvailableFor(invs[i], e, now) && !AvailableToAnyone(invs[i], now);
            Refuse
  }

  /**
   * When no invitation carries an empty email (the invitations route stores non-empty
   * ones only), the gate refuses exactly when the user is new and either has no non-empty
   * email or finds no invitation consumable for it.
   */
  lemma {:induction false} RefusedIffNothingConsumable(users: map<string, Id>, invs: seq<Invitation>,
                                                       email: Option<string>, cookie: Option<string>, now: int)
    requires forall i :: 0 <= i < |invs| ==> invs[i].email != Some([])
    ensures GateChoice(users, invs, email, cookie, now) == Refuse <==>
      !(email.Some? && email.value in users) &&
      (!Truthy(email) || forall i :: 0 <= i < |invs| ==> !Consumable(invs[i], email.value, now))
  {
    if GateChoice(users, invs, email, cookie, now) == Refuse && Truthy(email) {
      forall i | 0 <= i < |invs| ensures !Consumable(invs[i], email.value, now) {
        assert !AvailableFor(invs[i], email.value, now) && !AvailableToAnyone(invs[i], now);
      }
    }
  }

  /** The invitation table after the decision: the consumed invitation gets `usedAt = now`. */
  function AfterChoice(invs: seq<Invitation>, c: Choice, now: int): seq<Invitation>
    requires c.Consume? ==> c.index < |invs|
  {
    if c.Consume? then invs[c.index := invs[c.index].(usedAt := Some(now))] else invs
  }

  /**
   * `callbacks.signIn`. A registered user is admitted and no invitation changes; a refusal
   * redirects to the unauthorized page and changes no invitation; admitting a new user
   * flips exactly one unused invitation to used at `now`.
   */
  method SignIn(db: Library, email: Option<string>, cookie: Option<string>, now: int)
    returns (r: SignInResult)
    requires db.Valid()
    modifies db`invitations
    ensures db.Valid()
    ensures var c := GateChoice(db.users, old(db.invitations), email, cookie, now);
      (r == Admit <==> c != Refuse) && db.invitations == AfterChoice(old(db.invitations), c, now)
    ensures email.Some? && email.value in db.users ==> r == Admit && db.invitations == old(db.invitations)
    ensures r.Deny? ==> r.redirect == UnauthorizedPage && db.invitations == old(db.invitations)
    ensures r == Admit && !(email.Some? && email.value in db.users) ==>
      exists k :: 0 <= k < |old(db.invitations)| && old(db.invitations)[k].usedAt.None? &&
        db.invitations == old(db.invitations)[k := old(db.invitations)[k].(usedAt := Some(now))]
  {
    // the user table is looked up first
    if email.Some? && email.value in db.users {
      return Admit;
    }
    if Truthy(email) {
      var e := email.value;
      var token := CookieToken(cookie);
      if token.Some? {
        var t := TokenIndex(db.invitations, token.value);
        if t.Some? && Consumable(db.invitations[t.value], e, now) {
          MarkUsed(db, t.value, now);
          return Admit;
        }
      }
      var k := FirstIndex(db.invitations, (inv: Invitation) => AvailableFor(inv, e, now));
      if k.None? {
        k := FirstIndex(db.invitations, (inv: Invitation) => AvailableToAnyone(inv, now));
      }
      if k.Some? {
        MarkUsed(db, k.value, now);
        return Admit;
      }
    }
    return Deny(UnauthorizedPage);
  }

  /** `invitation.update({ data: { usedAt: now } })` on one row. */
  method MarkUsed(db: Library, k: nat, now: int)
    requires db.Valid() && k < |db.invitations|
    modifies db`invitations
    ensures db.Valid()
    ensures db.invitations == old(db.invitations)[k := old(db.invitations)[k].(usedAt := Some(now))]
  {
    db.invitations := db.invitations[k := db.invitations[k].(usedAt := Some(now))];
  }

  /** An invitation, once used, is not consumable by anyone at any time again. */
  lemma UsedStaysUsed(invs: seq<Invitation>, c: Choice, now: int, email: string, later: int)
    requires c.Consume? && c.index < |invs|
    ensures !Consumable(AfterChoice(invs, c, now)[c.index], email, later)
    ensures forall i :: 0 <= i < |invs| && i != c.index ==> AfterChoice(invs, c, now)[i] == invs[i]
  {
  }

  datatype SessionUser = SessionUser(id: Option<Id>, name: Option<string>, email: Option<string>)

  datatype Session = Session(user: Option<SessionUser>, expires: string)

  /** `callbacks.session`: when the session has a user, that user's id becomes the signed-in user's id. */
  function SessionCallback(session: Session, userId: Id): (r: Session)
    ensures r.expires == session.expires && (r.user.Some? <==> session.user.Some?)
    ensures r.user.Some? ==> r.user.value.id == Some(userId)
    ensures r.user.Some? ==> r.user.value.name == session.user.value.name && r.user.value.email == session.user.value.email
  {
    match session.user
    case Some(u) => session.(user := Some(u.(id := Some(userId))))
    case None => session
  }
}
