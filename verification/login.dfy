/** The sign-in of frontend/src/pages/LoginPage.tsx: after the password is accepted,
    the email must be confirmed and the access request approved before the page routes
    by role; a signed-in user without a profile row gets one, named from the sign-up
    metadata, the email's local part, or "User". */
module Login {
  import opened Wrappers
  import opened Text

  /** The user the auth service signs in: `email_confirmed_at` reduced to whether it
      is set, `user_metadata.full_name`, and `email`. */
  datatype AuthUser = AuthUser(id: string, emailConfirmed: bool, metadataFullName: Option<string>, email: Option<string>)

  /** `signInWithPassword`: an error, or data whose user may be null. */
  datatype SignInReply = AuthFailed(message: string) | SignedIn(user: Option<AuthUser>)

  /** The `status, role` columns of the user's `user_request` row. */
  datatype RequestRow = RequestRow(status: string, role: string)

  /** The lookup of that row with `.maybeSingle()`: an error, or the row or null. */
  datatype RequestReply = LookupFailed(message: string) | Looked(row: Option<RequestRow>)

  datatype ProfileInsert = ProfileInsert(id: string, fullName: string)

  /** What a submission leaves behind: the error shown, whether the session was
      signed out again, where the page went, the profile row inserted, and the
      loading flag. */
  datatype LoginOutcome = LoginOutcome(
    error: Option<string>,
    signedOut: bool,
    navigateTo: Option<string>,
    profileInsert: Option<ProfileInsert>,
    isLoading: bool)

  const VERIFY_EMAIL: string := "Please verify your email first."
  const NO_REQUEST: string := "Your access request is pending admin approval."
  const AWAITING_APPROVAL: string := "Your account is awaiting admin approval."
  const REJECTED: string := "Your request was rejected."
  const LOGIN_FAILED: string := "Login failed"
  const FALLBACK_ERROR: string := "Something went wrong"

  /** The decision before the profile step: fail with a message (and maybe sign the
      session out first), or route to a path for the given user. */
  datatype Decision = Fail(message: string, signOut: bool) | Route(user: AuthUser, path: string)

  /** The checks of `handleSubmit`, in their order: the auth error, a missing user, an
      unconfirmed email, a lookup error, a missing request row, a pending and a
      rejected status; then the role picks the page. */
  function Decide(reply: SignInReply, lookup: RequestReply): Decision
  {
    match reply
    case AuthFailed(m) => Fail(m, false)
    case SignedIn(None) => Fail(LOGIN_FAILED, false)
    case SignedIn(Some(u)) =>
      if !u.emailConfirmed then Fail(VERIFY_EMAIL, true)
      else
        match lookup
        case LookupFailed(m) => Fail(m, false)
        case Looked(None) => Fail(NO_REQUEST, true)
        case Looked(Some(row)) =>
          if row.status == "pending" then Fail(AWAITING_APPROVAL, true)
          else if row.status == "rejected" then Fail(REJECTED, true)
          else Route(u, if row.role == "admin" then "/admin" else "/")
  }

  /** `value || next`: a string counts only when non-empty. */
  function OrElse(value: Option<string>, next: string): string
  {
    if value.Some? && value.value != "" then value.value else next
  }

  /** `email.split("@")[0]`: the text before the first '@', all of it when there is
      none. */
  function LocalPart(email: string): (r: string)
    ensures IsPrefix(r, email) && '@' !in r
    ensures |r| < |email| ==> email[|r|] == '@'
  {
    email[..FirstAt(email)]
  }

  /** `user_metadata?.full_name || email?.split("@")[0] || "User"`. */
  function ProfileName(u: AuthUser): string
  {
    var fromEmail := if u.email.Some? then Some(LocalPart(u.email.value)) else None;
    OrElse(u.metadataFullName, OrElse(fromEmail, "User"))
  }

  /** The name is never empty: the sign-up name when one was given, else the email's
      local part when non-empty, else "User". */
  lemma ProfileNameFallback(u: AuthUser)
    ensures ProfileName(u) != ""
    ensures u.metadataFullName.Some? && u.metadataFullName.value != "" ==> ProfileName(u) == u.metadataFullName.value
    ensures (u.metadataFullName.None? || u.metadataFullName.value == "") ==>
      if u.email.Some? && FirstAt(u.email.value) > 0 then
        ProfileName(u) == u.email.value[..FirstAt(u.email.value)]
        && IsPrefix(ProfileName(u), u.email.value) && '@' !in ProfileName(u)
      else ProfileName(u) == "User"
  {
  }

  /** `handleSubmit`. `profileFound` is whether the profile lookup returned a row
      (its error is ignored, so a failed lookup also inserts). The catch shows the
      thrown message or "Something went wrong", and `finally` ends loading. */
  function HandleSubmit(reply: SignInReply, lookup: RequestReply, profileFound: bool): LoginOutcome
  {
    match Decide(reply, lookup)
    case Fail(m, signOut) => LoginOutcome(Some(OrElse(Some(m), FALLBACK_ERROR)), signOut, None, None, false)
    case Route(u, path) =>
      var insert := if profileFound then None else Some(ProfileInsert(u.id, ProfileName(u)));
      LoginOutcome(None, false, Some(path), insert, false)
  }

  /** The user's request is approved in the sense of the page: a confirmed email, a
      request row, and a status that is neither "pending" nor "rejected". */
  predicate Admitted(reply: SignInReply, lookup: RequestReply)
  {
    && reply.SignedIn? && reply.user.Some? && reply.user.value.emailConfirmed
    && lookup.Looked? && lookup.row.Some?
    && lookup.row.value.status != "pending" && lookup.row.value.status != "rejected"
  }

  /** The page routes exactly for an admitted user, to "/admin" exactly for role
      "admin"; otherwise it shows an error that is never empty. Loading always ends. */
  lemma RoutesIffAdmitted(reply: SignInReply, lookup: RequestReply, profileFound: bool)
    ensures var out := HandleSubmit(reply, lookup, profileFound);
      && !out.isLoading
      && (out.navigateTo.Some? <==> Admitted(reply, lookup))
      && (out.navigateTo.Some? <==> out.error.None?)
      && (out.error.Some? ==> out.error.value != "")
      && (Admitted(reply, lookup) ==>
            (out.navigateTo == Some("/admin") <==> lookup.row.value.role == "admin"))
  {
  }

  /** The status checks come before the role: a pending or rejected admin is kept out
      like anyone else. */
  lemma PendingAdminBlocked(reply: SignInReply, lookup: RequestReply, profileFound: bool)
    requires reply.SignedIn? && reply.user.Some? && reply.user.value.emailConfirmed
    requires lookup.Looked? && lookup.row.Some? && lookup.row.value.role == "admin"
    requires lookup.row.value.status in {"pending", "rejected"}
    ensures var out := HandleSubmit(reply, lookup, profileFound);
      && out.navigateTo.None? && out.signedOut
      && out.error == Some(if lookup.row.value.status == "pending" then AWAITING_APPROVAL else REJECTED)
  {
  }

  /** The session is signed out again exactly when the password was accepted but the
      email is unconfirmed, or the lookup found no row or a pending or rejected one;
      each case shows its own message. */
  lemma SignOutIff(reply: SignInReply, lookup: RequestReply, profileFound: bool)
    ensures var out := HandleSubmit(reply, lookup, profileFound);
      var signedIn := reply.SignedIn? && reply.user.Some?;
      && (signedIn && !reply.user.value.emailConfirmed ==> out.signedOut && out.error == Some(VERIFY_EMAIL))
      && (signedIn && reply.user.value.emailConfirmed && lookup == Looked(None) ==>
            out.signedOut && out.error == Some(NO_REQUEST))
      && (out.signedOut <==>
            signedIn && (!reply.user.value.emailConfirmed
                         || (lookup.Looked? && (lookup.row.None? || lookup.row.value.status in {"pending", "rejected"}))))
  {
  }

  /** A profile row is inserted only for a routed user without one, under that user's
      id and with the fallback name. */
  lemma ProfileInsertedIff(reply: SignInReply, lookup: RequestReply, profileFound: bool)
    ensures var out := HandleSubmit(reply, lookup, profileFound);
      && (out.profileInsert.Some? <==> Admitted(reply, lookup) && !profileFound)
      && (out.profileInsert.Some? ==>
            out.profileInsert.value == ProfileInsert(reply.user.value.id, ProfileName(reply.user.value))
            && out.profileInsert.value.fullName != "")
  {
    if Admitted(reply, lookup) {
      ProfileNameFallback(reply.user.value);
    }
  }

  /** The error of a failed sign-in is the service's own message, or the fallback when
      that message is empty. */
  lemma AuthErrorShown(m: string, lookup: RequestReply, profileFound: bool)
    ensures HandleSubmit(AuthFailed(m), lookup, profileFound).error == Some(if m == "" then FALLBACK_ERROR else m)
    ensures !HandleSubmit(AuthFailed(m), lookup, profileFound).signedOut
  {
  }
}
