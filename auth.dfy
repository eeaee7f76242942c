/**
 * auth.py: who may see or answer a feedback request, the decision a
 * `require_permission` guard makes, and the get-or-create of the
 * local development user on the user table.
 */
module Auth {
  import opened Common

  /** A row of the `user` table (models.py). */
  datatype User = User(
    id: Id,
    email: string,
    name: string,
    canCreateTemplates: bool,
    canCreateRequestsForOthers: bool,
    isAdmin: bool)

  /** Flask-Login's `current_user`, or a user passed in explicitly: an
      anonymous visitor is not authenticated, every `User` row is. */
  datatype Principal = Anonymous | Authenticated(user: User)

  /** The fields of a `feedback_request` row that the access rules read.
      `assignedToId` is `None` when the row has no legacy assignee id. */
  datatype FeedbackRequest = FeedbackRequest(
    id: Id,
    targetName: string,
    targetEmail: Option<string>,
    createdById: Id,
    assignedToEmail: Option<string>,
    assignedToId: Option<Id>)

  /** `can_access_request`: the early-return ladder of auth.py. */
  predicate CanAccessRequest(req: FeedbackRequest, who: Principal)
  {
    if who.Anonymous? then false
    else if who.user.isAdmin then true
    else if req.createdById == who.user.id then true
    else if req.targetEmail == Some(who.user.email) then true
    else if req.assignedToEmail == Some(who.user.email) then true
    else if req.assignedToId == Some(who.user.id) then true
    else false
  }

  /** `can_complete_request`: only the assignee, by email or legacy id. */
  predicate CanCompleteRequest(req: FeedbackRequest, who: Principal)
  {
    if who.Anonymous? then false
    else if req.assignedToEmail == Some(who.user.email) then true
    else if req.assignedToId == Some(who.user.id) then true
    else false
  }

  /** The assignee of a request, by email or by legacy id. */
  predicate IsAssignee(req: FeedbackRequest, u: User)
  {
    req.assignedToEmail == Some(u.email) || req.assignedToId == Some(u.id)
  }

  /** A visitor who is not logged in can neither see nor answer a request. */
  lemma AnonymousIsDenied(req: FeedbackRequest)
    ensures !CanAccessRequest(req, Anonymous)
    ensures !CanCompleteRequest(req, Anonymous)
  {
  }

  /** An administrator sees every request, whatever its other fields hold. */
  lemma AdminAccessesEverything(req: FeedbackRequest, u: User)
    requires u.isAdmin
    ensures CanAccessRequest(req, Authenticated(u))
  {
  }

  /** A non-administrator sees a request exactly when they created it, are
      its target, or are its assignee. */
  lemma NonAdminAccessIff(req: FeedbackRequest, u: User)
    requires !u.isAdmin
    ensures CanAccessRequest(req, Authenticated(u)) <==>
              req.createdById == u.id
              || req.targetEmail == Some(u.email)
              || IsAssignee(req, u)
  {
  }

  /** Only the assignee can answer a request; being an administrator, the
      creator or the target does not help. */
  lemma CompleteIffAssignee(req: FeedbackRequest, u: User)
    ensures CanCompleteRequest(req, Authenticated(u)) <==> IsAssignee(req, u)
  {
  }

  /** An administrator who is not the assignee may see the request but may
      not answer it. */
  lemma AdminAloneCannotComplete(req: FeedbackRequest, u: User)
    requires u.isAdmin && !IsAssignee(req, u)
    ensures CanAccessRequest(req, Authenticated(u))
    ensures !CanCompleteRequest(req, Authenticated(u))
  {
  }

  /** Whoever may answer a request may also see it. */
  lemma CompleteImpliesAccess(req: FeedbackRequest, who: Principal)
    requires CanCompleteRequest(req, who)
    ensures CanAccessRequest(req, who)
  {
  }

  /** What a `require_permission` guard does with a request. */
  datatype Decision = Allow | RedirectToLogin | RedirectToDashboard

  /** The decision of `decorated_function` once `auto_login_dev_user` has
      produced `user` (`None` when nobody is logged in). */
  function RequirePermission(permission: string, user: Option<User>): Decision
  {
    if user.None? then RedirectToLogin
    else if user.value.isAdmin then Allow
    else if permission == "create_templates" && !user.value.canCreateTemplates then RedirectToDashboard
    else if permission == "create_requests_for_others" && !user.value.canCreateRequestsForOthers then RedirectToDashboard
    else Allow
  }

  /** The permission a named guard checks, if the name is one it knows. */
  predicate LacksNamedPermission(permission: string, u: User)
  {
    (permission == "create_templates" && !u.canCreateTemplates)
    || (permission == "create_requests_for_others" && !u.canCreateRequestsForOthers)
  }

  /** The three outcomes of the guard: nobody logged in goes to the login
      page; an administrator always passes; any other user is sent to the
      dashboard exactly when the guard names a flag the user lacks, and any
      other permission name lets them through. */
  lemma RequirePermissionOutcomes(permission: string, user: Option<User>)
    ensures RequirePermission(permission, user) == RedirectToLogin <==> user.None?
    ensures user.Some? && user.value.isAdmin ==> RequirePermission(permission, user) == Allow
    ensures RequirePermission(permission, user) == RedirectToDashboard <==>
              user.Some? && !user.value.isAdmin && LacksNamedPermission(permission, user.value)
    ensures user.Some? && permission != "create_templates" && permission != "create_requests_for_others" ==>
              RequirePermission(permission, user) == Allow
  {
  }

  /** The settings `get_or_create_dev_user` reads from the app config. */
  datatype DevConfig = DevConfig(localDevMode: bool, devEmail: string, devName: string)

  /** `User.email` is declared unique. */
  ghost predicate UniqueEmails(rows: seq<User>)
  {
    forall i, j :: 0 <= i < j < |rows| ==> rows[i].email != rows[j].email
  }

  /** `User.id` is the primary key. */
  ghost predicate UniqueIds(rows: seq<User>)
  {
    forall i, j :: 0 <= i < j < |rows| ==> rows[i].id != rows[j].id
  }

  /** `User.query.filter_by(email=email).first()`. */
  function FirstWithEmail(rows: seq<User>, email: string): (r: Option<User>)
    ensures r.Some? ==> r.value in rows && r.value.email == email
    ensures r.None? <==> forall u :: u in rows ==> u.email != email
  {
    if rows == [] then None
    else if rows[0].email == email then Some(rows[0])
    else FirstWithEmail(rows[1..], email)
  }

  /** The row `get_or_create_dev_user` inserts when the dev user is missing. */
  function NewDevUser(cfg: DevConfig, freshId: Id): User
  {
    User(freshId, cfg.devEmail, cfg.devName, true, true, true)
  }

  /** `get_or_create_dev_user` as a function of the user table before the
      call: the user it returns and the table after it. `freshId` is the
      UUID the `id` column default would draw. */
  function DevUserLookup(cfg: DevConfig, rows: seq<User>, freshId: Id): (Option<User>, seq<User>)
  {
    if !cfg.localDevMode then (None, rows)
    else match FirstWithEmail(rows, cfg.devEmail)
      case Some(u) => (Some(u), rows)
      case None => (Some(NewDevUser(cfg, freshId)), rows + [NewDevUser(cfg, freshId)])
  }

  /** Outside development mode nothing is returned and nothing is added. */
  lemma DevUserOffDoesNothing(cfg: DevConfig, rows: seq<User>, freshId: Id)
    requires !cfg.localDevMode
    ensures DevUserLookup(cfg, rows, freshId) == (None, rows)
  {
  }

  /** In development mode an existing user with the configured email is
      returned and the table is left as it is. */
  lemma DevUserFindsExisting(cfg: DevConfig, rows: seq<User>, freshId: Id, u: User)
    requires cfg.localDevMode && UniqueEmails(rows)
    requires u in rows && u.email == cfg.devEmail
    ensures DevUserLookup(cfg, rows, freshId) == (Some(u), rows)
  {
    var found := FirstWithEmail(rows, cfg.devEmail);
    var i :| 0 <= i < |rows| && rows[i] == found.value;
    var j :| 0 <= j < |rows| && rows[j] == u;
    assert i == j;
  }

  /** In development mode, when no user has the configured email, exactly
      one row is added: the configured email and name with every
      permission flag set, and that row is returned. */
  lemma DevUserCreatesMissing(cfg: DevConfig, rows: seq<User>, freshId: Id)
    requires cfg.localDevMode
    requires forall u :: u in rows ==> u.email != cfg.devEmail
    ensures var (user, rows') := DevUserLookup(cfg, rows, freshId);
            && user.Some? && rows' == rows + [user.value]
            && user.value.id == freshId
            && user.value.email == cfg.devEmail && user.value.name == cfg.devName
            && user.value.canCreateTemplates && user.value.canCreateRequestsForOthers && user.value.isAdmin
  {
  }

  /** In development mode a user with the configured email always comes back
      and is in the table afterwards. */
  lemma DevUserAlwaysPresent(cfg: DevConfig, rows: seq<User>, freshId: Id)
    requires cfg.localDevMode
    ensures var (user, rows') := DevUserLookup(cfg, rows, freshId);
            user.Some? && user.value.email == cfg.devEmail && user.value in rows'
            && |rows| <= |rows'| <= |rows| + 1 && rows'[..|rows|] == rows
  {
  }

  /** The table keeps its unique emails and ids, given a fresh id. */
  lemma DevUserKeepsKeysUnique(cfg: DevConfig, rows: seq<User>, freshId: Id)
    requires UniqueEmails(rows) && UniqueIds(rows)
    requires forall u :: u in rows ==> u.id != freshId
    ensures UniqueEmails(DevUserLookup(cfg, rows, freshId).1)
    ensures UniqueIds(DevUserLookup(cfg, rows, freshId).1)
  {
    var rows' := DevUserLookup(cfg, rows, freshId).1;
    if cfg.localDevMode && FirstWithEmail(rows, cfg.devEmail).None? {
      assert rows' == rows + [NewDevUser(cfg, freshId)];
      assert rows'[|rows|] == NewDevUser(cfg, freshId);
      forall i | 0 <= i < |rows|
        ensures rows'[i] == rows[i] && rows[i] in rows
      {
      }
    }
  }

  /** Calling `get_or_create_dev_user` a second time returns the same user
      and leaves the table as the first call left it. */
  lemma DevUserIdempotent(cfg: DevConfig, rows: seq<User>, id1: Id, id2: Id)
    ensures var (user, rows') := DevUserLookup(cfg, rows, id1);
            DevUserLookup(cfg, rows', id2) == (user, rows')
  {
    var (user, rows') := DevUserLookup(cfg, rows, id1);
    if cfg.localDevMode && FirstWithEmail(rows, cfg.devEmail).None? {
      var nu := NewDevUser(cfg, id1);
      assert rows' == rows + [nu];
      var again := FirstWithEmail(rows', cfg.devEmail);
      assert nu in rows';
      assert again.Some?;
      assert again.value in rows + [nu];
      assert again.value == nu;
    }
  }

  /** The user `auto_login_dev_user` yields, as the access checks see it:
      `None` is a visitor who is not authenticated. */
  function AsPrincipal(user: Option<User>): Principal
  {
    if user.None? then Anonymous else Authenticated(user.value)
  }

  /** `auto_login_dev_user` (without its clock and session effects): in
      development mode a visitor who is not logged in becomes the dev user;
      otherwise the logged-in user, if any, is returned. */
  function AutoLogin(cfg: DevConfig, current: Option<User>, rows: seq<User>, freshId: Id): (Option<User>, seq<User>)
  {
    if cfg.localDevMode && current.None? then
      var (user, rows') := DevUserLookup(cfg, rows, freshId);
      if user.Some? then (user, rows') else (current, rows')
    else (current, rows)
  }

  /** A logged-in user is kept and the table is untouched; outside development
      mode nobody is logged in on the visitor's behalf. */
  lemma AutoLoginKeepsCurrent(cfg: DevConfig, current: Option<User>, rows: seq<User>, freshId: Id)
    requires current.Some? || !cfg.localDevMode
    ensures AutoLogin(cfg, current, rows, freshId) == (current, rows)
  {
  }

  /** In development mode the decision of the guard's body is never the
      login page, whoever `current` is, since `auto_login_dev_user` yields a
      user there. In the program `@login_required` runs first and only lets
      a logged-in `current` reach the body. */
  lemma DevModeNeverRedirectsToLogin(cfg: DevConfig, permission: string, current: Option<User>, rows: seq<User>, freshId: Id)
    requires cfg.localDevMode
    ensures RequirePermission(permission, AutoLogin(cfg, current, rows, freshId).0) != RedirectToLogin
  {
    if current.None? {
      DevUserAlwaysPresent(cfg, rows, freshId);
    }
  }

  /** A visitor whom `auto_login_dev_user` logs in as a dev user that had to
      be created (as `ensure_authenticated` does) sees every request, and the
      guard body's decision for that user is to allow, since the new row has
      every flag set. Inside `require_permission` this path is not reached:
      `@login_required` sends such a visitor to the login page first. */
  lemma CreatedDevUserPassesEverything(cfg: DevConfig, rows: seq<User>, freshId: Id,
                                       permission: string, req: FeedbackRequest)
    requires cfg.localDevMode
    requires forall u :: u in rows ==> u.email != cfg.devEmail
    ensures var user := AutoLogin(cfg, None, rows, freshId).0;
            RequirePermission(permission, user) == Allow
            && CanAccessRequest(req, AsPrincipal(user))
  {
    DevUserCreatesMissing(cfg, rows, freshId);
  }

  /** The `user` table, as the ORM session sees it. */
  class UserTable {
    var rows: seq<User>

    ghost predicate Valid()
      reads this
    {
      UniqueEmails(rows) && UniqueIds(rows)
    }

    constructor (existing: seq<User>)
      requires UniqueEmails(existing) && UniqueIds(existing)
      ensures Valid() && rows == existing
    {
      rows := existing;
    }

    /** `get_or_create_dev_user`: look the configured email up and insert the
        dev user when it is missing. */
    method GetOrCreateDevUser(cfg: DevConfig, freshId: Id) returns (user: Option<User>)
      requires Valid()
      requires forall u :: u in rows ==> u.id != freshId
      modifies this
      ensures Valid()
      ensures (user, rows) == DevUserLookup(cfg, old(rows), freshId)
    {
      DevUserKeepsKeysUnique(cfg, rows, freshId);
      if !cfg.localDevMode {
        return None;
      }
      user := FirstWithEmail(rows, cfg.devEmail);
      if user.None? {
        var u := User(freshId, cfg.devEmail, cfg.devName, true, true, true);
        rows := rows + [u];
        user := Some(u);
      }
    }

    /** `auto_login_dev_user`, without stamping `last_login` and without
        `login_user`. */
    method AutoLoginDevUser(cfg: DevConfig, current: Option<User>, freshId: Id) returns (user: Option<User>)
      requires Valid()
      requires forall u :: u in rows ==> u.id != freshId
      modifies this
      ensures Valid()
      ensures (user, rows) == AutoLogin(cfg, current, old(rows), freshId)
    {
      if cfg.localDevMode && current.None? {
        user := GetOrCreateDevUser(cfg, freshId);
        if user.Some? {
          return user;
        }
      }
      user := current;
    }
  }
}
