/**
 * The configuration validator of the select-role node.  It looks up the
 * realm's group names, then checks that every candidate role is one of them
 * and that the default role is one of the candidate roles, in that order.
 *
 * A configuration maps each attribute name to its value set; a Java Set's
 * iteration order is unspecified, so each value set is written here as a
 * sequence that IS that iteration order.  Sequences that come from a Java Set
 * have no duplicates (NoDuplicates); the validator itself does not rely on it.
 */
module SelectRoleNodeConfigValidator {
  import opened Results
  import AmIdentityHelper

  /** What `validate` throws. */
  datatype ValidationError =
    | ServiceErrorException(message: string, cause: AmIdentityHelper.RepoFailure)
    | ServiceConfigException(message: string)
    | NullPointerException     // an attribute missing from the configuration map
    | NoSuchElementException   // an empty defaultRole value set

  /** `validate` either returns normally or throws. */
  datatype Verdict = Valid | Invalid(error: ValidationError)

  /** Attribute name to value set, each set in its iteration order. */
  type Config = map<string, seq<string>>

  const CandidateRolesKey := "candidateRoles"
  const DefaultRoleKey := "defaultRole"
  const LookupErrorMessage := "Error during finding all groups in realm"
  const DefaultRoleMessage := "defaultRole is not one of the candidateRoles"

  predicate NoDuplicates(s: seq<string>)
  {
    forall i, j :: 0 <= i < j < |s| ==> s[i] != s[j]
  }

  /** The message for absent candidate roles; `realm` is the realm's string form. */
  function CandidateRolesMessage(realm: string, invalidRoleNames: string): string
  {
    "candidateRoles contains non-existing group name(s) in realm " + realm + " : " + invalidRoleNames
  }

  /** The candidate roles, in iteration order, that are not group names of the realm. */
  function AbsentNames(candidateRoles: seq<string>, groupNames: set<string>): (absent: seq<string>)
    ensures forall n :: n in absent <==> n in candidateRoles && n !in groupNames
    ensures |absent| <= |candidateRoles|
    ensures NoDuplicates(candidateRoles) ==> NoDuplicates(absent)
  {
    if candidateRoles == [] then []
    else
      var rest := AbsentNames(candidateRoles[1..], groupNames);
      assert forall n :: n in candidateRoles[1..] ==> n in candidateRoles;
      if candidateRoles[0] in groupNames then rest else [candidateRoles[0]] + rest
  }

  /** Collectors.joining(): the parts concatenated with no separator. */
  function Join(parts: seq<string>): (joined: string)
    ensures joined == "" <==> forall i :: 0 <= i < |parts| ==> parts[i] == ""
  {
    if parts == [] then ""
    else
      var rest := Join(parts[1..]);
      assert parts[0] + rest == "" <==> parts[0] == "" && rest == "" by {
        assert |parts[0] + rest| == |parts[0]| + |rest|;
      }
      assert (forall i :: 0 <= i < |parts| ==> parts[i] == "")
         <==> parts[0] == "" && (forall i :: 0 <= i < |parts[1..]| ==> parts[1..][i] == "") by {
        assert forall i :: 0 <= i < |parts[1..]| ==> parts[1..][i] == parts[i + 1];
      }
      parts[0] + rest
  }

  /** How many times `x` occurs in `s`. */
  function Count(s: seq<string>, x: string): (k: nat)
    ensures k <= |s|
  {
    if s == [] then 0 else (if s[0] == x then 1 else 0) + Count(s[1..], x)
  }

  /**
   * validateCandidateRoles AS WRITTEN: it throws only when the JOINED absent
   * names are a non-empty string, so absent names that are all "" pass.
   */
  function ValidateCandidateRolesAsWritten(realm: string, candidateRoles: seq<string>, groupNames: set<string>): (v: Verdict)
    ensures v.Valid? <==> forall c :: c in candidateRoles && c !in groupNames ==> c == ""
  {
    var absent := AbsentNames(candidateRoles, groupNames);
    var invalidRoleNames := Join(absent);
    if invalidRoleNames != "" then
      var i :| 0 <= i < |absent| && absent[i] != "";
      assert absent[i] in absent;
      Invalid(ServiceConfigException(CandidateRolesMessage(realm, invalidRoleNames)))
    else Valid
  }

  /**
   * validateCandidateRoles as intended: it throws exactly when some candidate
   * role is absent, with the message the source builds.
   */
  function ValidateCandidateRoles(realm: string, candidateRoles: seq<string>, groupNames: set<string>): (v: Verdict)
    ensures v.Valid? <==> forall c :: c in candidateRoles ==> c in groupNames
    ensures v.Invalid? ==> v.error.ServiceConfigException?
  {
    var absent := AbsentNames(candidateRoles, groupNames);
    if absent != [] then
      assert absent[0] in absent;
      Invalid(ServiceConfigException(CandidateRolesMessage(realm, Join(absent))))
    else Valid
  }

  /** validateDefaultRole. */
  function ValidateDefaultRole(defaultRole: string, candidateRoles: seq<string>): (v: Verdict)
    ensures v.Valid? <==> defaultRole in candidateRoles
    ensures v.Invalid? ==> v == Invalid(ServiceConfigException(DefaultRoleMessage))
  {
    if defaultRole !in candidateRoles then Invalid(ServiceConfigException(DefaultRoleMessage))
    else Valid
  }

  /**
   * validate, with the corrected candidate-roles check.  `groupsInRealm` is
   * what findAllGroupsInRealm returns or throws for the realm's path; `realm`
   * is the realm's string form, used in the message.
   */
  function Validate(
    groupsInRealm: Result<set<AmIdentityHelper.Identity>, AmIdentityHelper.RepoFailure>,
    realm: string,
    config: Config
  ): (v: Verdict)
    ensures groupsInRealm.Failure? ==>
              v == Invalid(ServiceErrorException(LookupErrorMessage, groupsInRealm.error))
    ensures v.Invalid? && v.error.ServiceErrorException? ==> groupsInRealm.Failure?
  {
    match AmIdentityHelper.FindAllGroupNamesInRealm(groupsInRealm)
    case Failure(f) => Invalid(ServiceErrorException(LookupErrorMessage, f))
    case Success(groupNames) =>
      if CandidateRolesKey !in config then Invalid(NullPointerException)
      else
        var candidateRoles := config[CandidateRolesKey];
        var candidates := ValidateCandidateRoles(realm, candidateRoles, groupNames);
        if candidates.Invalid? then candidates
        else if DefaultRoleKey !in config then Invalid(NullPointerException)
        else if config[DefaultRoleKey] == [] then Invalid(NoSuchElementException)
        else ValidateDefaultRole(config[DefaultRoleKey][0], candidateRoles)
  }

  /** validate exactly as written, with ValidateCandidateRolesAsWritten. */
  function ValidateAsWritten(
    groupsInRealm: Result<set<AmIdentityHelper.Identity>, AmIdentityHelper.RepoFailure>,
    realm: string,
    config: Config
  ): (v: Verdict)
    ensures groupsInRealm.Failure? ==>
              v == Invalid(ServiceErrorException(LookupErrorMessage, groupsInRealm.error))
    ensures v.Invalid? && v.error.ServiceErrorException? ==> groupsInRealm.Failure?
  {
    match AmIdentityHelper.FindAllGroupNamesInRealm(groupsInRealm)
    case Failure(f) => Invalid(ServiceErrorException(LookupErrorMessage, f))
    case Success(groupNames) =>
      if CandidateRolesKey !in config then Invalid(NullPointerException)
      else
        var candidateRoles := config[CandidateRolesKey];
        var candidates := ValidateCandidateRolesAsWritten(realm, candidateRoles, groupNames);
        if candidates.Invalid? then candidates
        else if DefaultRoleKey !in config then Invalid(NullPointerException)
        else if config[DefaultRoleKey] == [] then Invalid(NoSuchElementException)
        else ValidateDefaultRole(config[DefaultRoleKey][0], candidateRoles)
  }

  // ---------------------------------------------------------------------
  // Properties of validate

  /** A failing group lookup is reported before any configuration is looked at. */
  lemma LookupFailureFirst(failure: AmIdentityHelper.RepoFailure, realm: string, config: Config)
    ensures Validate(Failure(failure), realm, config)
         == Invalid(ServiceErrorException(LookupErrorMessage, failure))
  {
  }

  /**
   * A candidate role that is not a group name of the realm is reported, with
   * the absent names joined into the message, whatever the default role is.
   */
  lemma AbsentCandidateReported(groups: set<AmIdentityHelper.Identity>, realm: string, config: Config, c: string)
    requires CandidateRolesKey in config
    requires c in config[CandidateRolesKey] && c !in AmIdentityHelper.NamesOf(groups)
    ensures Validate(Success(groups), realm, config)
         == Invalid(ServiceConfigException(CandidateRolesMessage(realm,
              Join(AbsentNames(config[CandidateRolesKey], AmIdentityHelper.NamesOf(groups))))))
  {
  }

  /**
   * The filtered names that get joined into that message hold each absent
   * candidate role exactly once when the candidate roles come from a set.
   */
  lemma AbsentNamesAreExactlyTheMissing(candidateRoles: seq<string>, groupNames: set<string>)
    requires NoDuplicates(candidateRoles)
    ensures forall n :: n in AbsentNames(candidateRoles, groupNames)
                 ==> Count(AbsentNames(candidateRoles, groupNames), n) == 1
  {
    var absent := AbsentNames(candidateRoles, groupNames);
    forall n | n in absent ensures Count(absent, n) == 1 {
      CountInNoDuplicates(absent, n);
    }
  }

  /** With every candidate role a group name, a default role outside the candidates is reported. */
  lemma DefaultRoleNotCandidateReported(groups: set<AmIdentityHelper.Identity>, realm: string, config: Config)
    requires CandidateRolesKey in config && DefaultRoleKey in config && config[DefaultRoleKey] != []
    requires forall c :: c in config[CandidateRolesKey] ==> c in AmIdentityHelper.NamesOf(groups)
    requires config[DefaultRoleKey][0] !in config[CandidateRolesKey]
    ensures Validate(Success(groups), realm, config) == Invalid(ServiceConfigException(DefaultRoleMessage))
  {
  }

  /** validate accepts exactly the configurations the class comment describes. */
  lemma ValidateAcceptsIff(
    groupsInRealm: Result<set<AmIdentityHelper.Identity>, AmIdentityHelper.RepoFailure>,
    realm: string,
    config: Config
  )
    ensures Validate(groupsInRealm, realm, config).Valid? <==>
      && groupsInRealm.Success?
      && CandidateRolesKey in config
      && DefaultRoleKey in config
      && config[DefaultRoleKey] != []
      && (forall c :: c in config[CandidateRolesKey] ==> c in AmIdentityHelper.NamesOf(groupsInRealm.value))
      && config[DefaultRoleKey][0] in config[CandidateRolesKey]
  {
  }

  /** An empty candidate-role set passes its own check but never the default-role check. */
  lemma EmptyCandidatesRejectDefault(groups: set<AmIdentityHelper.Identity>, realm: string, config: Config)
    requires CandidateRolesKey in config && config[CandidateRolesKey] == []
    requires DefaultRoleKey in config && config[DefaultRoleKey] != []
    ensures ValidateCandidateRoles(realm, [], AmIdentityHelper.NamesOf(groups)) == Valid
    ensures Validate(Success(groups), realm, config) == Invalid(ServiceConfigException(DefaultRoleMessage))
  {
  }

  // ---------------------------------------------------------------------
  // The code as written

  /**
   * As written, the candidate-roles check lets through an absent candidate
   * role named "": the configuration {candidateRoles: {""}, defaultRole: {""}}
   * is accepted for a realm without groups.
   */
  lemma AsWrittenAcceptsAbsentEmptyName(realm: string)
    ensures "" !in AmIdentityHelper.NamesOf({})
    ensures ValidateAsWritten(Success({}), realm,
              map[CandidateRolesKey := [""], DefaultRoleKey := [""]]) == Valid
    ensures Validate(Success({}), realm,
              map[CandidateRolesKey := [""], DefaultRoleKey := [""]])
         == Invalid(ServiceConfigException(CandidateRolesMessage(realm, "")))
  {
  }

  /**
   * As written, validate completes exactly when the lookup succeeds, both
   * attributes are present, defaultRole is non-empty, every candidate role
   * that is not a group name is "", and the first defaultRole value is a
   * candidate.
   */
  lemma ValidateAsWrittenAcceptsIff(
    groupsInRealm: Result<set<AmIdentityHelper.Identity>, AmIdentityHelper.RepoFailure>,
    realm: string,
    config: Config
  )
    ensures ValidateAsWritten(groupsInRealm, realm, config).Valid? <==>
      && groupsInRealm.Success?
      && CandidateRolesKey in config
      && DefaultRoleKey in config
      && config[DefaultRoleKey] != []
      && (forall c :: c in config[CandidateRolesKey] && c !in AmIdentityHelper.NamesOf(groupsInRealm.value) ==> c == "")
      && config[DefaultRoleKey][0] in config[CandidateRolesKey]
  {
  }

  /**
   * As written, an absent candidate role other than "" is reported with the
   * joined absent names, whatever the default role is.
   */
  lemma AsWrittenAbsentCandidateReported(groups: set<AmIdentityHelper.Identity>, realm: string, config: Config, c: string)
    requires CandidateRolesKey in config
    requires c in config[CandidateRolesKey] && c !in AmIdentityHelper.NamesOf(groups) && c != ""
    ensures ValidateAsWritten(Success(groups), realm, config)
         == Invalid(ServiceConfigException(CandidateRolesMessage(realm,
              Join(AbsentNames(config[CandidateRolesKey], AmIdentityHelper.NamesOf(groups))))))
  {
  }

  /** As written and corrected validate agree unless "" is an absent candidate role. */
  lemma AsWrittenAgreesWithoutEmptyName(
    groupsInRealm: Result<set<AmIdentityHelper.Identity>, AmIdentityHelper.RepoFailure>,
    realm: string,
    config: Config
  )
    requires groupsInRealm.Success? && CandidateRolesKey in config ==>
               "" !in config[CandidateRolesKey] || "" in AmIdentityHelper.NamesOf(groupsInRealm.value)
    ensures ValidateAsWritten(groupsInRealm, realm, config) == Validate(groupsInRealm, realm, config)
  {
  }

  // ---------------------------------------------------------------------
  // Helpers

  lemma {:induction false} CountInNoDuplicates(s: seq<string>, x: string)
    requires NoDuplicates(s) && x in s
    ensures Count(s, x) == 1
  {
    if s[0] == x {
      CountAbsent(s[1..], x);
    } else {
      assert x in s[1..];
      CountInNoDuplicates(s[1..], x);
    }
  }

  lemma {:induction false} CountAbsent(s: seq<string>, x: string)
    requires x !in s
    ensures Count(s, x) == 0
  {
    if s != [] {
      CountAbsent(s[1..], x);
    }
  }
}
