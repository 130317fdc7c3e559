/**
 * The identity helper: a guard on user identities and the projection of
 * group identities onto their names.  The directory itself (identity search,
 * membership queries) is foreign; its answers are inputs here.
 */
module AmIdentityHelper {
  import opened Results

  /** The two checked exceptions of the identity repository API. */
  datatype RepoFailure = IdRepoException | SSOException

  /** The answer of a boolean directory query that may throw (isExists, isActive). */
  datatype Query = Answer(value: bool) | Raises(failure: RepoFailure)

  /** The type of a directory identity; only USER and GROUP matter here. */
  datatype IdType = User | Group | OtherType(typeName: string)

  /** A directory identity as the helper sees it. */
  datatype Identity = Identity(name: string, idType: IdType, isExists: Query, isActive: Query)

  /** What the helper's lookups throw. */
  datatype HelperError =
    | IllegalArgumentException(message: string)
    | Repo(failure: RepoFailure)

  const NotActiveMessage := "User either does not exist or is not active."

  /** A non-null USER identity that the directory reports as existing and active. */
  predicate IsActiveUser(user: Option<Identity>)
  {
    && user.Some?
    && user.value.idType == User
    && user.value.isExists == Answer(true)
    && user.value.isActive == Answer(true)
  }

  /** The set of names of a set of identities. */
  function NamesOf(groups: set<Identity>): (names: set<string>)
    ensures forall g :: g in groups ==> g.name in names
    ensures forall n :: n in names ==> exists g :: g in groups && g.name == n
  {
    set g | g in groups :: g.name
  }

  /**
   * findAllAssignedGroupsOfUser.  `memberships` is what
   * getMemberships(IdType.GROUP) returns (or throws) for the user.  The guard
   * evaluates left to right with short-circuit `||`, so isExists is asked
   * only of a USER and isActive only of one that exists; a query that throws
   * propagates its exception.
   */
  function FindAllAssignedGroupsOfUser(
    user: Option<Identity>,
    memberships: Result<set<Identity>, RepoFailure>
  ): (r: Result<set<Identity>, HelperError>)
    ensures r.Success? <==> IsActiveUser(user) && memberships.Success?
  {
    if user.None? || user.value.idType != User then
      Failure(IllegalArgumentException(NotActiveMessage))
    else
      match user.value.isExists
      case Raises(f) => Failure(Repo(f))
      case Answer(false) => Failure(IllegalArgumentException(NotActiveMessage))
      case Answer(true) =>
        match user.value.isActive
        case Raises(f) => Failure(Repo(f))
        case Answer(false) => Failure(IllegalArgumentException(NotActiveMessage))
        case Answer(true) =>
          match memberships
          case Failure(f) => Failure(Repo(f))
          case Success(groups) => Success(groups)
  }

  /** findAllAssignedGroupNamesOfUser: the names of the user's groups. */
  function FindAllAssignedGroupNamesOfUser(
    user: Option<Identity>,
    memberships: Result<set<Identity>, RepoFailure>
  ): (r: Result<set<string>, HelperError>)
    ensures r.Failure? <==> FindAllAssignedGroupsOfUser(user, memberships).Failure?
    ensures r.Failure? ==> r.error == FindAllAssignedGroupsOfUser(user, memberships).error
  {
    match FindAllAssignedGroupsOfUser(user, memberships)
    case Failure(e) => Failure(e)
    case Success(groups) => Success(NamesOf(groups))
  }

  /** findAllGroupNamesInRealm, given what findAllGroupsInRealm returns or throws. */
  function FindAllGroupNamesInRealm(
    groupsInRealm: Result<set<Identity>, RepoFailure>
  ): (r: Result<set<string>, RepoFailure>)
    ensures r.Failure? <==> groupsInRealm.Failure?
    ensures r.Failure? ==> r.error == groupsInRealm.error
  {
    match groupsInRealm
    case Failure(f) => Failure(f)
    case Success(groups) => Success(NamesOf(groups))
  }

  // ---------------------------------------------------------------------
  // The guard

  /** A null identity is rejected with IllegalArgumentException. */
  lemma NullRejected(memberships: Result<set<Identity>, RepoFailure>)
    ensures FindAllAssignedGroupsOfUser(None, memberships)
         == Failure(IllegalArgumentException(NotActiveMessage))
  {
  }

  /** An identity that is not a USER is rejected without querying the directory. */
  lemma NonUserRejected(user: Identity, memberships: Result<set<Identity>, RepoFailure>)
    requires user.idType != User
    ensures FindAllAssignedGroupsOfUser(Some(user), memberships)
         == Failure(IllegalArgumentException(NotActiveMessage))
  {
  }

  /** A USER the directory reports as non-existent, or existing but inactive, is rejected. */
  lemma AbsentOrInactiveRejected(user: Identity, memberships: Result<set<Identity>, RepoFailure>)
    requires user.idType == User
    requires user.isExists == Answer(false)
          || (user.isExists == Answer(true) && user.isActive == Answer(false))
    ensures FindAllAssignedGroupsOfUser(Some(user), memberships)
         == Failure(IllegalArgumentException(NotActiveMessage))
  {
  }

  /**
   * The guard rejects with IllegalArgumentException exactly the identities
   * that are null, not USERs, or answered as non-existent or inactive; the
   * repository exception that escapes is the first one thrown, in the order
   * isExists, isActive, getMemberships.
   */
  lemma GuardRejectsExactly(user: Option<Identity>, memberships: Result<set<Identity>, RepoFailure>)
    ensures FindAllAssignedGroupsOfUser(user, memberships).Failure? &&
            FindAllAssignedGroupsOfUser(user, memberships).error.IllegalArgumentException?
        <==> (|| user.None?
              || user.value.idType != User
              || user.value.isExists == Answer(false)
              || (user.value.isExists == Answer(true) && user.value.isActive == Answer(false)))
    ensures user.Some? && user.value.idType == User && user.value.isExists.Raises? ==>
              FindAllAssignedGroupsOfUser(user, memberships) == Failure(Repo(user.value.isExists.failure))
    ensures user.Some? && user.value.idType == User && user.value.isExists == Answer(true)
            && user.value.isActive.Raises? ==>
              FindAllAssignedGroupsOfUser(user, memberships) == Failure(Repo(user.value.isActive.failure))
    ensures IsActiveUser(user) && memberships.Failure? ==>
              FindAllAssignedGroupsOfUser(user, memberships) == Failure(Repo(memberships.error))
  {
  }

  /** A valid user yields its group memberships unchanged. */
  lemma ActiveUserYieldsMemberships(user: Option<Identity>, groups: set<Identity>)
    requires IsActiveUser(user)
    ensures FindAllAssignedGroupsOfUser(user, Success(groups)) == Success(groups)
  {
  }

  // ---------------------------------------------------------------------
  // The name projections

  /** Projecting onto names never yields more names than there are identities. */
  lemma {:induction false} NamesOfSize(groups: set<Identity>)
    ensures |NamesOf(groups)| <= |groups|
  {
    if groups != {} {
      var g :| g in groups;
      var rest := groups - {g};
      NamesOfSize(rest);
      assert NamesOf(groups) == NamesOf(rest) + {g.name};
    }
  }

  /** Two distinct identities with the same name collapse into one name. */
  lemma DuplicateNamesCollapse(groups: set<Identity>, g1: Identity, g2: Identity)
    requires g1 in groups && g2 in groups && g1 != g2 && g1.name == g2.name
    ensures |NamesOf(groups)| < |groups|
  {
    var rest := groups - {g2};
    assert NamesOf(groups) == NamesOf(rest);
    NamesOfSize(rest);
  }

  /**
   * The names variant fails exactly when the groups variant does, and
   * otherwise returns the names of the very groups it would return.
   */
  lemma GroupNamesOfUserIsImage(user: Option<Identity>, memberships: Result<set<Identity>, RepoFailure>)
    ensures FindAllAssignedGroupNamesOfUser(user, memberships).Success? ==>
              && memberships.Success?
              && FindAllAssignedGroupNamesOfUser(user, memberships).value == NamesOf(memberships.value)
              && |FindAllAssignedGroupNamesOfUser(user, memberships).value| <= |memberships.value|
  {
    if FindAllAssignedGroupNamesOfUser(user, memberships).Success? {
      NamesOfSize(memberships.value);
    }
  }

  /** The realm's group names are the names of its groups, and no more of them. */
  lemma GroupNamesInRealmIsImage(groups: set<Identity>)
    ensures FindAllGroupNamesInRealm(Success(groups)).Success?
    ensures forall n :: n in FindAllGroupNamesInRealm(Success(groups)).value
                 <==> exists g :: g in groups && g.name == n
    ensures |FindAllGroupNamesInRealm(Success(groups)).value| <= |groups|
  {
    NamesOfSize(groups);
  }
}
