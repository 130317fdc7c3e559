# Select-role node: configuration validator, header login decision, identity helper

This project models the three Java classes of the select-role authentication
node (package `com.forgerock.edu.auth.nodes`) as pure Dafny functions, and
proves properties of them.

- `SelectRoleNodeConfigValidator` (module `SelectRoleNodeConfigValidator`)
  rejects a node configuration. First it looks up the realm's group names. A
  failed lookup is a `ServiceErrorException`. Then every candidate role must
  be a group name of the realm. Then the first value of `defaultRole` must be
  a candidate role. A failed check is a `ServiceConfigException` with a fixed
  message. As written, the candidate check lets an absent candidate role named
  `""` through (see "## Findings"). `ValidateAsWritten` models the code as
  written; `Validate` is the corrected validator, and the lemmas marked
  "corrected" below are about it.
- `SelectRoleNode.process` (module `SelectRoleNode`) is a zero-page-login
  check despite the class name. It reads the configured username and password
  headers, compares the first password value with the configured secret, and
  asks the directory whether the identity exists and is active. It answers
  outcome `true` and stores the username in a copy of the shared state, or it
  answers outcome `false`.
- `AmIdentityHelper` (module `AmIdentityHelper`) guards the group lookup of a
  user. It rejects null, non-USER, non-existent and inactive identities. It
  also projects sets of group identities onto their names.

Calls into the directory are inputs of the model, never calls:
- the result of `findAllGroupsInRealm`;
- the result of `getMemberships(IdType.GROUP)`;
- the answers (or exceptions) of `isExists()` and `isActive()`;
- `coreWrapper.getIdentity`, which is a function parameter of `Process`.

A Java `Set` has no specified iteration order. Each configuration value set is
therefore a `seq<string>` that is that set's iteration order. The properties
of the error message hold for every such order.

A Guava `ListMultimap` holds the request headers. It never maps a name to an
empty list. The model's `Headers` type carries that invariant.

The shared-state keys `REALM` and `USERNAME` have the values `"realm"` and
`"username"`, as in the authentication tree API's `SharedStateConstants`.
That API class is not part of this model.

A Java reference that may be null is an `Option`. A method that may throw is
a `Result` or a `Verdict`. The unchecked exceptions that `validate` can throw
on a malformed configuration map are error values:
- `NullPointerException` for a missing attribute;
- `NoSuchElementException` for an empty `defaultRole` set.

## Model

| member | source | states |
|---|---|---|
| `AmIdentityHelper.NamesOf` | src/main/java/com/forgerock/edu/auth/nodes/AmIdentityHelper.java:38-41 | every identity's name is in the result, and every name in it belongs to some identity in the set |
| `AmIdentityHelper.FindAllAssignedGroupsOfUser` | src/main/java/com/forgerock/edu/auth/nodes/AmIdentityHelper.java:25-34 | succeeds exactly when the identity is a non-null, existing, active USER and the membership query succeeds |
| `AmIdentityHelper.NullRejected` | src/main/java/com/forgerock/edu/auth/nodes/AmIdentityHelper.java:26-30 | a null identity throws IllegalArgumentException with the fixed message |
| `AmIdentityHelper.NonUserRejected` | src/main/java/com/forgerock/edu/auth/nodes/AmIdentityHelper.java:27-30 | an identity whose type is not USER throws IllegalArgumentException, whatever the directory would answer |
| `AmIdentityHelper.AbsentOrInactiveRejected` | src/main/java/com/forgerock/edu/auth/nodes/AmIdentityHelper.java:28-30 | a USER reported as non-existent, or existing but inactive, throws IllegalArgumentException |
| `AmIdentityHelper.GuardRejectsExactly` | src/main/java/com/forgerock/edu/auth/nodes/AmIdentityHelper.java:26-33 | IllegalArgumentException is raised exactly for null, non-USER, non-existent or inactive identities; a repository exception escapes as the first one thrown, in the order isExists, isActive, getMemberships |
| `AmIdentityHelper.ActiveUserYieldsMemberships` | src/main/java/com/forgerock/edu/auth/nodes/AmIdentityHelper.java:31-33 | a valid user yields exactly its GROUP memberships, unchanged |
| `AmIdentityHelper.FindAllAssignedGroupNamesOfUser` | src/main/java/com/forgerock/edu/auth/nodes/AmIdentityHelper.java:37-38 | fails exactly when findAllAssignedGroupsOfUser fails, and with the same error |
| `AmIdentityHelper.GroupNamesOfUserIsImage` | src/main/java/com/forgerock/edu/auth/nodes/AmIdentityHelper.java:37-42 | on success the names are the name image of the memberships, and there are no more names than groups |
| `AmIdentityHelper.NamesOfSize` | src/main/java/com/forgerock/edu/auth/nodes/AmIdentityHelper.java:38-41 | the name image of a set of identities is no larger than the set |
| `AmIdentityHelper.DuplicateNamesCollapse` | src/main/java/com/forgerock/edu/auth/nodes/AmIdentityHelper.java:38-41 | two distinct identities with the same name give strictly fewer names than identities |
| `AmIdentityHelper.FindAllGroupNamesInRealm` | src/main/java/com/forgerock/edu/auth/nodes/AmIdentityHelper.java:75-80 | fails exactly when the realm's group search fails, with the same exception |
| `AmIdentityHelper.GroupNamesInRealmIsImage` | src/main/java/com/forgerock/edu/auth/nodes/AmIdentityHelper.java:75-80 | a name is a realm group name exactly when some group of the realm has that name, and there are no more names than groups |
| `SelectRoleNodeConfigValidator.AbsentNames` | src/main/java/com/forgerock/edu/auth/nodes/SelectRoleNodeConfigValidator.java:69-70 | the filtered names are exactly the candidate roles that are not realm group names, and they have no duplicates when the candidates have none |
| `SelectRoleNodeConfigValidator.Join` | src/main/java/com/forgerock/edu/auth/nodes/SelectRoleNodeConfigValidator.java:71 | the joined string is empty exactly when every part is empty |
| `SelectRoleNodeConfigValidator.ValidateCandidateRolesAsWritten` | src/main/java/com/forgerock/edu/auth/nodes/SelectRoleNodeConfigValidator.java:68-77 | as written, the check passes exactly when every absent candidate role is the empty string |
| `SelectRoleNodeConfigValidator.ValidateCandidateRoles` | src/main/java/com/forgerock/edu/auth/nodes/SelectRoleNodeConfigValidator.java:68-77 | corrected: the check passes exactly when the candidate roles are a subset of the realm's group names, and a failure is a ServiceConfigException |
| `SelectRoleNodeConfigValidator.ValidateDefaultRole` | src/main/java/com/forgerock/edu/auth/nodes/SelectRoleNodeConfigValidator.java:62-66 | passes exactly when the default role is a candidate role, and otherwise raises ServiceConfigException("defaultRole is not one of the candidateRoles") |
| `SelectRoleNodeConfigValidator.Validate` | src/main/java/com/forgerock/edu/auth/nodes/SelectRoleNodeConfigValidator.java:47-60 | corrected: a failed group lookup is reported as ServiceErrorException with the cause, and only a failed lookup gives that error |
| `SelectRoleNodeConfigValidator.ValidateAsWritten` | src/main/java/com/forgerock/edu/auth/nodes/SelectRoleNodeConfigValidator.java:47-60 | as written: a failed group lookup is reported as ServiceErrorException with the cause, and only a failed lookup gives that error |
| `SelectRoleNodeConfigValidator.LookupFailureFirst` | src/main/java/com/forgerock/edu/auth/nodes/SelectRoleNodeConfigValidator.java:49-53 | corrected: a failed group lookup raises ServiceErrorException("Error during finding all groups in realm") with the cause, before any configuration is read |
| `SelectRoleNodeConfigValidator.AbsentCandidateReported` | src/main/java/com/forgerock/edu/auth/nodes/SelectRoleNodeConfigValidator.java:54-58 | corrected: an absent candidate role raises ServiceConfigException whose message is the prefix, the realm, " : " and the joined absent names, whatever defaultRole is; so the candidate check comes first |
| `SelectRoleNodeConfigValidator.AbsentNamesAreExactlyTheMissing` | src/main/java/com/forgerock/edu/auth/nodes/SelectRoleNodeConfigValidator.java:69-75 | for a candidate set in any iteration order, the filtered names that get joined hold each absent candidate exactly once |
| `SelectRoleNodeConfigValidator.DefaultRoleNotCandidateReported` | src/main/java/com/forgerock/edu/auth/nodes/SelectRoleNodeConfigValidator.java:57-66 | corrected: when the candidates are valid, a first defaultRole value outside them raises ServiceConfigException("defaultRole is not one of the candidateRoles") |
| `SelectRoleNodeConfigValidator.ValidateAcceptsIff` | src/main/java/com/forgerock/edu/auth/nodes/SelectRoleNodeConfigValidator.java:47-60 | corrected: validate completes exactly when the lookup succeeds, both attributes are present, defaultRole is non-empty, candidateRoles is a subset of the realm's group names and the first defaultRole value is a candidate |
| `SelectRoleNodeConfigValidator.EmptyCandidatesRejectDefault` | src/main/java/com/forgerock/edu/auth/nodes/SelectRoleNodeConfigValidator.java:62-73 | corrected: an empty candidateRoles passes the candidate check, and then the default-role check always fails |
| `SelectRoleNodeConfigValidator.AsWrittenAcceptsAbsentEmptyName` | src/main/java/com/forgerock/edu/auth/nodes/SelectRoleNodeConfigValidator.java:69-76 | as written, candidateRoles {""} with defaultRole {""} is accepted for a realm without groups; the corrected validator rejects it |
| `SelectRoleNodeConfigValidator.ValidateAsWrittenAcceptsIff` | src/main/java/com/forgerock/edu/auth/nodes/SelectRoleNodeConfigValidator.java:47-77 | as written: validate completes exactly when the lookup succeeds, both attributes are present, defaultRole is non-empty, every candidate role that is not a group name is "", and the first defaultRole value is a candidate |
| `SelectRoleNodeConfigValidator.AsWrittenAbsentCandidateReported` | src/main/java/com/forgerock/edu/auth/nodes/SelectRoleNodeConfigValidator.java:54-58 | as written: an absent candidate role other than "" raises ServiceConfigException with the prefix, the realm, " : " and the joined absent names, whatever defaultRole is |
| `SelectRoleNodeConfigValidator.AsWrittenAgreesWithoutEmptyName` | src/main/java/com/forgerock/edu/auth/nodes/SelectRoleNodeConfigValidator.java:47-77 | the code as written and the corrected validator agree on every input where "" is not an absent candidate role |
| `SelectRoleNode.Process` | src/main/java/com/forgerock/edu/auth/nodes/SelectRoleNode.java:80-102 | every path returns exactly one outcome, and the shared state is replaced exactly on outcome true |
| `SelectRoleNode.MissingHeaderRejects` | src/main/java/com/forgerock/edu/auth/nodes/SelectRoleNode.java:81-86 | without the username header or the password header the outcome is false and the shared state is kept |
| `SelectRoleNode.AcceptsIff` | src/main/java/com/forgerock/edu/auth/nodes/SelectRoleNode.java:88-94 | the outcome is true exactly when both headers are present, the first password value equals the secret, and the identity found for the first username value is non-null, exists and is active |
| `SelectRoleNode.AcceptSetsOnlyUsername` | src/main/java/com/forgerock/edu/auth/nodes/SelectRoleNode.java:94 | on outcome true the new shared state is the old one with USERNAME set to the header's username; no other key changes |
| `SelectRoleNode.RepoFailureRejects` | src/main/java/com/forgerock/edu/auth/nodes/SelectRoleNode.java:92-101 | an IdRepoException or SSOException from isExists or isActive gives outcome false and is never propagated |
| `SelectRoleNode.OnlyFirstValuesMatter` | src/main/java/com/forgerock/edu/auth/nodes/SelectRoleNode.java:89-90 | requests that agree on header presence and on the first values of the two headers get the same action |
| `SelectRoleNode.DefaultConfigLogin` | src/main/java/com/forgerock/edu/auth/nodes/SelectRoleNode.java:50-65 | with the default headers X-OpenAM-Username and X-OpenAM-Password and the secret "secretKey", an existing active user logs in exactly when the password is "secretKey" |

## Left out

- `findAllGroupsInRealm` (AmIdentityHelper.java:51-66): getting the admin token and running `AMIdentityRepository.searchIdentities` are repository calls. Their result, or the exception they throw, is an input.
- `getIdentity` (AmIdentityHelper.java:89-91) and `coreWrapper.getIdentity` (SelectRoleNode.java:91): directory lookups. `Process` takes the lookup as a function parameter.
- `Realm.asPath()` and `Realm.toString()`: these are opaque. The path only feeds the foreign group search. The string form is a parameter of `Validate`.
- The unused parameter `list` of `validate` is left out.
- Debug logging, Guice injection, the node metadata and attribute annotations, and the node's constructor are wiring, not behaviour.
- The shared state is a JSON value in the source. The model keeps only string values. A REALM entry that is not a string, and so would make `asString()` fail, is not modelled.
- Matching header names is exact key lookup. Any case-insensitivity of the engine's header multimap belongs to the engine.
- The role-selection exercise in SelectRoleNodeTest.java uses an API that these classes do not have. Choice prompts, membership intersection and index validation are not part of this model.

## Findings

| source | as written | input that shows it | evidently intended | confidence | as-written member | corrected member |
|---|---|---|---|---|---|---|
| src/main/java/com/forgerock/edu/auth/nodes/SelectRoleNodeConfigValidator.java:69-73 | rejects only when the absent names, joined with no separator, form a non-empty string | candidateRoles = {""}, defaultRole = {""}, a realm with no groups: `validate` completes, although "" is not a group name | every candidate role is a group name of the realm, as the class comment states; reject whenever the filtered list is non-empty | medium, not executed | `SelectRoleNodeConfigValidator.AsWrittenAcceptsAbsentEmptyName` | `SelectRoleNodeConfigValidator.ValidateCandidateRoles` |

`ValidateAsWritten` is the source's `validate` with the as-written candidate
check. `Validate` uses the corrected check, and the validator lemmas are about
`Validate`. `AsWrittenAgreesWithoutEmptyName` proves that the two agree
everywhere except on this input class.
