# Reconcile logic of the IBM Cloud provider: model and proofs

The provider keeps cloud resources in the state that a managed resource describes. Every controller runs the same
loop: observe the remote object, fill in unset spec fields, decide whether the two agree, compute a difference and
write it back. This project models that loop for group memberships, scaling groups, topics, access group rules, tags
and policies, and the version list that the release script maintains, and proves when the loop converges, what
every intermediate state keeps, and where test and update disagree.

`dafny verify dfyconfig.toml` checks everything.

## How it is laid out

| files | content |
|---|---|
| `Pointers`, `Int64`, `Lists`, `Ordering` | optional fields, Go's 64-bit arithmetic, the filter behind every diff, sort-and-compare |
| `GroupMembershipClient`, `GroupMembershipRuns`, `GroupMembershipController` | member diff and test; the reconciler as a state machine; the reconciler calls on objects |
| `ScalingGroups`, `ScalingGroupController` | totals against per-member amounts; the code in its own form |
| `Topics`, `TopicController` | config merge and partition count; the code in its own form |
| `AccessGroupRules`, `AccessGroupRuleController` | ETag-guarded replace against third-party writers; the code in its own form |
| `Tags` | the set version of the member diff |
| `VersionText`, `Versions` | split, join and numerals; the sorted version list |
| `Policies`, `PolicyClient` | nested late initialization; the loops in place |

Objects that the source updates in place are classes, loops are loops, and each method is proved equal to a
specification function or to one action of a state machine. The theorems are about those functions and machines.

Everything the remote chooses is a parameter: the order of a listing, whether a call fails, which of its items a
failed call reached, the new ETag. A statement about all parameters is a statement about all failures. Functions that
panic in Go (nil dereference, index out of range, zero divisor) return an `Outcome`, and the exact condition is part
of their contract. `sort.Slice` is a method whose contract is "some sorted permutation", so nothing proved
depends on its stability.

The remote objects follow the mock servers of the tests: members are a map by id
(`pkg/clients/groupmembership/groupmembership_test.go:303-336`), tags are a set
(`pkg/clients/ibmcloud_helpers_test.go:42-73`). Where the mock gives every member one fixed type, the model stores the
type that was sent, since the up-to-date test compares types. Three things are assumed of the remote beyond that: an add
request that names a member without an id is rejected whole (`Sendable`), a topic update takes whatever partition count
it is sent and is refused only for another topic's name, and a listing that answers is complete. A deployment reads a total as total/n per current member and gives that
to every member after the resize (`pkg/clients/scalinggroup/scalinggroup.go:55-57`). A rule accepts a replace by the
If-Match rule of section 13.1.1 of RFC 9110 and gets an unused ETag with every write.

## What was found

- `MembersDiff` compares ids only, `IsUpToDate` compares types as well. A wrong type on record is never corrected by any
  sequence of observes and updates, and the resource is never reported up to date (`WrongTypeIsStuck`).
- Removing surplus members works only for members on record. Without an answered Observe, a fully successful update
  leaves the desired ids and the unrecorded surplus, so it closes the gap exactly when the record held the whole surplus
  from the start (`BlindRunCloses`); after Create over a group with one foreign member it does not
  (`ForeignMemberSurvives`). An answered Observe of the named group restores convergence (`RunConverges`). An empty
  listing leaves the old record in place, which is harmless: its leftovers cannot harm a desired member.
- A spec that names an empty id is never met; every other spec is met by one observed update in which the remote does
  what it is asked (`MetUnlessEmptyID`).
- With repeated keys the answer of sort-and-compare depends on the order an unstable sort picks, exactly when the lists
  are permutations of each other and two different elements share a key (`ReportDeterminate`).
- A product of the scaling group request that overflows int64 never divides back to the wanted amount, so the resource
  is then never up to date after the update; in all other cases one round converges (`OneStepConvergence`).
- The observed retention.ms is kept only when retention.bytes is reported. One round of a topic settles exactly when the
  spec sets retention.ms itself, or the remote reports it exactly when retention.bytes is reported or set by the spec.
- A topic's wanted partition count below the actual one is never reached and never reported up to date, in any run. It
  is the client that holds the count back: the remote of the model would take a smaller one.
- The subject loop of the policy's late initialization writes to the resources. It leaves all set cells alone for every
  spec and remote exactly when every subject attribute carries a name and a value (`SubjectsDecide`).
- Delete of a group membership does not look at errors of single members, while Create and Update do, so it may report
  success and leave members of the spec behind. `DeletionRun` says which, for every sequence of such deletes.
- The release script converts only the components that it reaches: `v1.2.3` can be bumped, and what stands behind the
  first difference of two versions is never looked at.

## Model

| member | source | states |
|---|---|---|
| Pointers.ToPtrValue | pkg/clients/groupmembership/groupmembership.go:55-56 | an optional request field never points to an empty string, and reading it back gives the value |
| Pointers.PtrRoundTrip | pkg/clients/groupmembership/groupmembership.go:154-155 | a stored pointer survives reading and writing exactly when it does not point to an empty string |
| Int64.MulDivExact | pkg/clients/scalinggroup/scalinggroup.go:70 | multiplying by a positive count and dividing again gives the amount back exactly when the product fits 64 bits |
| Int64.QuotientBounds | pkg/clients/scalinggroup/scalinggroup.go:31 | the truncated quotient by its bounds, for both signs |
| Int64.QuotientNegated | pkg/clients/scalinggroup/scalinggroup.go:31 | the truncated quotient by a negative divisor |
| Lists.WithoutCounts | pkg/clients/ibmcloud.go:507-519 | the filter of every diff keeps the multiplicity of what it lets through and drops the rest whole |
| Lists.WithoutPositions | pkg/clients/ibmcloud.go:507-519 | the filter holds the elements at exactly the positions whose key is not covered, in increasing order |
| Lists.WithoutEmpty | pkg/clients/groupmembership/groupmembership.go:176-191 | a diff list is empty exactly when every key is covered by the other side |
| Ordering.SortSlice | pkg/clients/groupmembership/groupmembership.go:120-125 | sorting in place leaves some sorted permutation, no particular one among equal keys |
| Ordering.SortAndCompare | pkg/clients/groupmembership/groupmembership.go:115-135 | copies, sorts and compares; the caller's list is not modified, the answer is one that some sort may give |
| Ordering.LessIsLexicographic | pkg/clients/groupmembership/groupmembership.go:120-125 | the first difference of two strings, or the end of the shorter one, decides their order |
| Ordering.ReportSound | pkg/clients/groupmembership/groupmembership.go:120-135 | a positive answer means equal multisets |
| Ordering.ReportExact | pkg/clients/groupmembership/groupmembership.go:120-135 | where the key determines the element the answer is multiset equality, for every order and every sort |
| Ordering.ReportDeterminate | pkg/clients/groupmembership/groupmembership.go:120-135 | the answer depends on the sort exactly when the lists are permutations and a key is shared by different elements |
| Ordering.ReportPossible | pkg/clients/groupmembership/groupmembership.go:120-135 | which answers are possible for every pair of lists: yes exactly for permutations, no unless there is only one sorted order |
| GroupMembershipClient.GenerateSDKAddGroupMembersRequestMembersItems | pkg/clients/groupmembership/groupmembership.go:51-61 | the items of an add request, in order, each with the id and the type of its member and nothing for an empty one |
| GroupMembershipClient.GenerateSDKRemoveGroupMembersRequestMembersItems | pkg/clients/groupmembership/groupmembership.go:64-70 | the ids of a remove request, in order |
| GroupMembershipClient.GenerateCRMembers | pkg/clients/groupmembership/groupmembership.go:147-160 | the members of a response in order, each with the id and the type of its item, none for a nil list |
| GroupMembershipClient.SDKRoundTrip | pkg/clients/groupmembership/groupmembership.go:51-61 | a member list survives the way into a request and back |
| GroupMembershipClient.MembersDiff | pkg/clients/groupmembership/groupmembership.go:164-193 | additions are the desired members whose id is not actual, removals the actual ids not desired, in order and multiplicity |
| GroupMembershipClient.IsUpToDate | pkg/clients/groupmembership/groupmembership.go:114-136 | the sort-and-compare test on a copy of the spec's array |
| GroupMembershipClient.TestAgreesWithDiff | pkg/clients/groupmembership/groupmembership.go:114-193 | with distinct ids the test succeeds exactly when both diff lists are empty and the types of shared ids agree |
| GroupMembershipRuns.AddExact | pkg/clients/groupmembership/groupmembership.go:196-209 | an add request is refused whole for an empty id; otherwise it adds exactly the ids it reaches, with the type of their last entry |
| GroupMembershipRuns.UpdateExact | pkg/clients/groupmembership/groupmembership.go:196-225 | one update for every pair of replies: which ids are there afterwards, and success exactly when each request is not needed or done in full |
| GroupMembershipRuns.UpdateTypes | pkg/clients/groupmembership/groupmembership.go:176-184 | a member that stays keeps its type, one that is added has the type of the spec |
| GroupMembershipRuns.CreateExact | pkg/controller/iamaccessgroupsv2/groupmembership.go:162-181 | which ids a create adds for every reply, with which types, and exactly when the external name is recorded |
| GroupMembershipRuns.ObserveExact | pkg/controller/iamaccessgroupsv2/groupmembership.go:126-145 | the record equals the listing, types included, and nothing is recorded without a nonempty listing of a named group |
| GroupMembershipRuns.StepKeeps | pkg/controller/iamaccessgroupsv2/groupmembership.go:108-195 | no Observe, Create or Update, however it fails, loses a desired id or gains a surplus one |
| GroupMembershipRuns.RunSafety | pkg/controller/iamaccessgroupsv2/groupmembership.go:108-195 | over every run: desired ids stay, the number of missing plus surplus ids never grows |
| GroupMembershipRuns.RemovalsWaitForAdditions | pkg/clients/groupmembership/groupmembership.go:196-225 | an update that takes any id away has every desired id in place before and after, and takes no desired id |
| GroupMembershipRuns.NeverEmptied | pkg/clients/groupmembership/groupmembership.go:196-225 | no run with a nonempty spec empties a group that had members |
| GroupMembershipRuns.UpdateCloses | pkg/clients/groupmembership/groupmembership.go:196-225 | a fully successful update closes the gap exactly when the whole surplus is on record |
| GroupMembershipRuns.UpdateLeaves | pkg/clients/groupmembership/groupmembership.go:164-225 | a fully successful update leaves exactly the desired ids and the surplus that is not on record |
| GroupMembershipRuns.UnrecordedSurplusStays | pkg/clients/groupmembership/groupmembership.go:185-191 | an unrecorded surplus id survives every run without an answered Observe |
| GroupMembershipRuns.BlindRunCloses | pkg/controller/iamaccessgroupsv2/groupmembership.go:162-195 | over every run without an answered Observe, a successful update closes the gap exactly when the record held the whole surplus at the start |
| GroupMembershipRuns.ForeignMemberSurvives | pkg/controller/iamaccessgroupsv2/groupmembership.go:162-195 | a concrete group that Create and Update, both successful in full, leave with a foreign member |
| GroupMembershipRuns.RunConverges | pkg/controller/iamaccessgroupsv2/groupmembership.go:108-195 | after an answered Observe of the named group, the first successful update of any continuation closes the gap for good |
| GroupMembershipRuns.EmptyIDNeverMet | pkg/clients/groupmembership/groupmembership.go:176-184 | a spec that names an empty id is never met, in any run; MetUnlessEmptyID is the other half |
| GroupMembershipRuns.MetUnlessEmptyID | pkg/controller/iamaccessgroupsv2/groupmembership.go:108-195 | an observed update in which the remote does what it is asked closes the gap exactly when the spec names no empty id |
| GroupMembershipRuns.UpToDateAfterUpdate | pkg/clients/groupmembership/groupmembership.go:114-193 | after Observe and a successful Update the next Observe is up to date exactly when the types of the shared ids agreed |
| GroupMembershipRuns.WrongTypeIsStuck | pkg/clients/groupmembership/groupmembership.go:164-193 | a wrong type on record survives every run of observes and updates and is never reported up to date |
| GroupMembershipRuns.DeleteRemovesSpec | pkg/controller/iamaccessgroupsv2/groupmembership.go:197-213 | a delete removes exactly the spec's ids that it reaches, and repeating it changes nothing |
| GroupMembershipRuns.DeletionRun | pkg/controller/iamaccessgroupsv2/groupmembership.go:197-213 | over every run of deletes and observes with arbitrary failures, exactly the spec's ids that some delete reached are gone |
| GroupMembershipRuns.DeleteThenObserve | pkg/controller/iamaccessgroupsv2/groupmembership.go:126-130 | after any such run Observe finds nothing exactly when every remote member was in the spec and reached; reached is implied by one full delete |
| GroupMembershipRuns.DeleteAfterConvergence | pkg/controller/iamaccessgroupsv2/groupmembership.go:197-213 | after a converged update any run of deletes with one full delete among them ends the resource |
| GroupMembershipController.AccessGroup.AddMembers | pkg/clients/groupmembership/groupmembership_test.go:306-316 | the remote adds the items a reply reaches, by id, with the type that was sent; the extracted error tells full success from everything else |
| GroupMembershipController.GroupMembership.Observe | pkg/controller/iamaccessgroupsv2/groupmembership.go:108-160 | is the observe action; exists only for a named, nonempty group, and reports a possible answer of the test |
| GroupMembershipController.GroupMembership.Create | pkg/controller/iamaccessgroupsv2/groupmembership.go:162-181 | is the create action; the external name is set, to the group id or the empty text for a missing one, only on full success, also when a benign error is dropped |
| GroupMembershipController.GroupMembership.Update | pkg/clients/groupmembership/groupmembership.go:196-225 | is the update action: additions, and removals only after they succeeded; fails exactly when a phase fails, which UpdateExact spells out |
| GroupMembershipController.GroupMembership.Delete | pkg/controller/iamaccessgroupsv2/groupmembership.go:197-213 | is the delete action; errors of single members do not count as failure |
| ScalingGroups.LateInitLaws | pkg/clients/scalinggroup/scalinggroup.go:21-50 | late initialization overwrites nothing, is idempotent, and makes an unset spec up to date exactly when its id matches |
| ScalingGroups.LateInitExact | pkg/clients/scalinggroup/scalinggroup.go:21-50 | each unset field takes the share of its own resource when that is reported, from the first group or not at all |
| ScalingGroups.TestExact | pkg/clients/scalinggroup/scalinggroup.go:148-191 | the up-to-date test field by field |
| ScalingGroups.Observed | pkg/clients/scalinggroup/scalinggroup.go:58 | where the first group has a count it is the first one recorded, so update and test use the same n |
| ScalingGroups.ObservedAt | pkg/clients/scalinggroup/scalinggroup.go:91-94 | the observation keeps exactly the groups with a count, in order |
| ScalingGroups.ObservedExact | pkg/clients/scalinggroup/scalinggroup.go:95-140 | each recorded field is the remote's field of the same name, each share that resource's own total divided |
| ScalingGroups.PanicsExactly | pkg/clients/scalinggroup/scalinggroup.go:21-144 | what of a response observing and late initialization cannot do without |
| ScalingGroups.ShareBounds | pkg/clients/scalinggroup/scalinggroup.go:108-133 | each recorded share is the largest whole amount that every member can have |
| ScalingGroups.RequestExact | pkg/clients/scalinggroup/scalinggroup.go:53-84 | the request asks for a product, up to the word size, exactly where the spec has an amount, of the same resource |
| ScalingGroups.RegroupedShare | pkg/clients/scalinggroup/scalinggroup.go:55-57 | one resource through multiplication, regrouping and division, with the exact overflow condition |
| ScalingGroups.OneStepConvergence | pkg/controller/ibmclouddatabasesv5/scalinggroup.go:113-200 | Observe, Update, Observe across any resize the remote accepts is up to date exactly when the id matches and no product overflowed |
| ScalingGroups.ConvergesWithinRange | pkg/controller/ibmclouddatabasesv5/scalinggroup.go:113-200 | with positive counts and all products in range the remote accepts, and one round converges exactly when the id matches |
| ScalingGroups.LateInitLoses | pkg/clients/scalinggroup/scalinggroup.go:21-84 | each late-initialised resource on its own gives up less than one unit per member, for totals of either sign; at an unchanged count the remote accepts and a repetition requests the same |
| ScalingGroupController.Divide | pkg/clients/scalinggroup/scalinggroup.go:31 | panics exactly on a missing amount or a zero count |
| ScalingGroupController.GenerateObservation | pkg/clients/scalinggroup/scalinggroup.go:87-144 | the recorded groups, which ObservedExact spells out, with the exact panic condition |
| ScalingGroupController.GenerateScalingGroupParameters | pkg/clients/scalinggroup/scalinggroup.go:163-191 | the parameters the remote stands for, with the exact panic condition |
| ScalingGroupController.ScalingGroup.LateInitializeSpec | pkg/clients/scalinggroup/scalinggroup.go:21-50 | fills exactly the unset fields; a panic half-way has still changed no set field |
| ScalingGroupController.ScalingGroup.GenerateSetDeploymentScalingGroupOptions | pkg/clients/scalinggroup/scalinggroup.go:53-84 | totals over the recorded count with wrap-around; panics exactly when nothing is recorded |
| ScalingGroupController.ScalingGroup.Observe | pkg/controller/ibmclouddatabasesv5/scalinggroup.go:113-165 | new spec, new status and answer of an observe, its failures and its panics |
| ScalingGroupController.ScalingGroup.Create | pkg/controller/ibmclouddatabasesv5/scalinggroup.go:167-180 | takes over the deployment named by the spec, fails without an id |
| ScalingGroupController.ScalingGroup.Update | pkg/controller/ibmclouddatabasesv5/scalinggroup.go:182-200 | the remote after an update, its failures and its panic |
| ScalingGroupController.Round | pkg/controller/ibmclouddatabasesv5/scalinggroup.go:113-200 | the convergence condition on the managed resource itself, over three calls, and the exact condition for the three calls to return normally |
| Topics.RenderRoundTrip | pkg/clients/topic/topic.go:54-143 | a rendered config list holds each known name at most once, in the fixed order, and reads back as the same map |
| Topics.LastEntryDecides | pkg/clients/topic/topic.go:60-63 | of several configs with one name the last one counts |
| Topics.ReportedExact | pkg/clients/topic/topic.go:285-333 | each reported field is found under its own name and nothing else is |
| Topics.MergeExact | pkg/clients/topic/topic.go:54-143 | the merge name by name: the spec's last nonempty value, else the observed one, and the exception for retention.ms |
| Topics.MergeIsOverride | pkg/clients/topic/topic.go:54-143 | the merge is the plain override by the spec's last values exactly when retention.ms is set by the spec or reported along with retention.bytes |
| Topics.MergeOfNothing | pkg/clients/topic/topic.go:285-333 | on an empty spec the merge is the plain conversion exactly when retention.ms is reported along with retention.bytes |
| Topics.MergeIdempotent | pkg/clients/topic/topic.go:54-143 | merging the merged list again changes nothing |
| Topics.LateInitFixpoint | pkg/clients/topic/topic.go:34-51 | two applications always reach the fixpoint; the exact condition under which one does |
| Topics.CountsExact | pkg/clients/topic/topic.go:34-48 | which of the three counts each of the two fields of the spec takes |
| Topics.TestExact | pkg/clients/topic/topic.go:254-282 | the up-to-date test: name, both counts, and exactly the reported config names and values in the fixed order |
| Topics.WantedValueIsNoticed | pkg/clients/topic/topic.go:254-270 | a wanted config value that the remote does not report is never up to date, before or after late initialization |
| Topics.UpdateExact | pkg/clients/topic/topic.go:171-195 | an update is refused exactly for another name; otherwise the count becomes the greater of the two and the sent configs are merged |
| Topics.ApplyReported | pkg/clients/topic/topic.go:181-195 | after an update the remote reports the nonempty values sent over what it reported before |
| Topics.ConfigsSettle | pkg/clients/topic/topic.go:54-333 | the exact condition under which one round makes the config lists agree |
| Topics.OneStepConvergence | pkg/controller/eventstreamsadminv1/topic.go:113-207 | Observe, Update, Observe is up to date exactly when the names agree, the wanted count is not below the actual one, and the configs settle |
| Topics.CountNeverDecreases | pkg/clients/topic/topic.go:171-178 | over every run the remote partition count never decreases, although the remote would take any count, and a wanted count stays |
| Topics.SmallerCountIsStuck | pkg/clients/topic/topic.go:171-178 | a wanted count below the actual one changes nothing and is never up to date, in any run |
| TopicController.MergeConfigs | pkg/clients/topic/topic.go:54-143 | the six branch pairs compute the merge, nil for a nil observation |
| TopicController.GenerateConfigs | pkg/clients/topic/topic.go:285-333 | the six branches list what the remote reports, in the fixed order |
| TopicController.GenerateConfigUpdate | pkg/clients/topic/topic.go:181-195 | one update per config, never a reset |
| TopicController.GenerateUpdateTopicOptions | pkg/clients/topic/topic.go:171-178 | a new total exactly when it raises the count, and then the wanted one; panics exactly when a count is nil |
| TopicController.IsUpToDate | pkg/clients/topic/topic.go:254-270 | equality of name, both counts and configs, values included, which TestExact spells out |
| TopicController.Topic.LateInitializeSpec | pkg/clients/topic/topic.go:34-51 | the four assignments compute the late initialization |
| TopicController.Topic.Observe | pkg/controller/eventstreamsadminv1/topic.go:113-163 | is the observe action; its answer, failures and panic |
| TopicController.Topic.Update | pkg/controller/eventstreamsadminv1/topic.go:187-207 | is the update action; its failures and panic |
| TopicController.Round | pkg/controller/eventstreamsadminv1/topic.go:113-207 | the convergence condition on the managed resource itself, over three calls, and the exact condition for the three calls to return normally |
| AccessGroupRules.ContentRoundTrip | pkg/clients/accessgrouprule/accessgrouprule.go:47-85 | what a spec writes reads back as the same spec |
| AccessGroupRules.FieldsExact | pkg/clients/accessgrouprule/accessgrouprule.go:47-85 | every field goes to the field of the same name, and back |
| AccessGroupRules.RuleTestExact | pkg/clients/accessgrouprule/accessgrouprule.go:112-134 | which answers are possible: yes exactly when name, realm, expiration and the multiset of conditions agree; no exactly when one differs or two different conditions share a claim |
| AccessGroupRules.StepKeepsInv | pkg/controller/iamaccessgroupsv2/accessgrouprule.go:108-198 | every step keeps what is recorded tied to what was read |
| AccessGroupRules.CreateExact | pkg/controller/iamaccessgroupsv2/accessgrouprule.go:159-178 | a create that arrives adds exactly one rule, as the spec says; an undisturbed one makes it the observed rule |
| AccessGroupRules.ObserveExact | pkg/controller/iamaccessgroupsv2/accessgrouprule.go:108-145 | an answered Observe of an existing rule records its id, ETag and state; any other records nothing |
| AccessGroupRules.ReplaceExact | pkg/controller/iamaccessgroupsv2/accessgrouprule.go:186-197 | a replace that arrives takes effect exactly when the rule is still as it was read |
| AccessGroupRules.NoLostUpdate | pkg/controller/iamaccessgroupsv2/accessgrouprule.go:120-197 | in every interleaving a replace that takes effect overwrites exactly the rule the last successful Observe read |
| AccessGroupRules.InterferenceIsDetected | pkg/controller/iamaccessgroupsv2/accessgrouprule.go:186-197 | after a third-party write no replace takes effect until the next Observe |
| AccessGroupRules.UninterruptedConverges | pkg/controller/iamaccessgroupsv2/accessgrouprule.go:108-198 | without interference the replace takes effect and the next test may only fail on repeated claims |
| AccessGroupRuleController.GenerateSDKRuleConditions | pkg/clients/accessgrouprule/accessgrouprule.go:60-71 | the conditions of a request, in order |
| AccessGroupRuleController.GenerateCRRuleConditions | pkg/clients/accessgrouprule/accessgrouprule.go:74-85 | the conditions of a response, in order |
| AccessGroupRuleController.AccessGroupRule.SetEtagAnnotation | pkg/clients/ibmcloud.go:603-610 | what is set is what the getter returns; no other annotation changes |
| AccessGroupRuleController.AccessGroupRule.IsUpToDate | pkg/clients/accessgrouprule/accessgrouprule.go:112-146 | a possible answer of the test; panics exactly on a missing expiration; the spec's list is not modified |
| AccessGroupRuleController.AccessGroupRule.Observe | pkg/controller/iamaccessgroupsv2/accessgrouprule.go:108-157 | is the observe action: records ETag and id of what it read, or nothing |
| AccessGroupRuleController.AccessGroupRule.Create | pkg/controller/iamaccessgroupsv2/accessgrouprule.go:159-178 | is the create action; a dropped error leaves the external name unset |
| AccessGroupRuleController.AccessGroupRule.Update | pkg/controller/iamaccessgroupsv2/accessgrouprule.go:180-198 | is the update action: sends the recorded ETag as If-Match and succeeds only when the replace took effect |
| Tags.TagsDiff | pkg/clients/ibmcloud.go:495-521 | desired filtered to non-members of actual and the reverse, order and multiplicity kept |
| Tags.DiffExact | pkg/clients/ibmcloud.go:495-521 | exact multiplicities, disjoint results, and applying the diff gives the desired set |
| Tags.GetResourceInstanceTags | pkg/clients/ibmcloud_helpers.go:154-173 | the listed names, an error when the listing fails |
| Tags.UpdateResourceInstanceTags | pkg/clients/ibmcloud_helpers.go:176-206 | tag set, number of writes and result of one call, for every pair of replies, which UpdateExact spells out |
| Tags.UpdateExact | pkg/clients/ibmcloud_helpers.go:176-206 | one call for every pair of replies: each tag, the number of writes, and success exactly when each request is not needed or done in full |
| Tags.UpdateReachesGoal | pkg/clients/ibmcloud_helpers.go:176-206 | success means the desired set, failure stays between, nothing is removed before all is attached, once attaching succeeded all desired tags are there, an equal set is not written |
| Tags.RetriesStayBetween | pkg/clients/ibmcloud_helpers.go:176-206 | over any run of failing calls the set stays between start and goal |
| Tags.RetryCompletes | pkg/clients/ibmcloud_helpers.go:176-206 | the first successful call of a run reaches the goal and later calls keep it |
| VersionText.JoinSplit | bump-version.py:15-23 | joining undoes splitting |
| VersionText.SplitJoin | bump-version.py:36-48 | splitting undoes joining when no part holds the separator's first character |
| VersionText.Str | bump-version.py:18 | a printed number is a numeral without leading zeros that parses to the number |
| VersionText.IntAppend | bump-version.py:18 | numerals are decimal, the most significant digit first |
| Versions.CompareVersions | bump-version.py:26-32 | the loop computes the lexicographic comparison over the common length, with no answer when a component it reaches is not a number |
| Versions.FirstDifferenceDecides | bump-version.py:26-32 | the first difference decides whatever stands behind it, and the comparison fails exactly when that difference is not between numbers |
| Versions.CompareTotalPreorder | bump-version.py:26-32 | on lists of one length the comparison is a total preorder that ties exactly on equal numbers |
| Versions.CompareNumbers | bump-version.py:26-32 | on three-part versions the comparison is the order of the three numbers |
| Versions.CalculateNextVersion | bump-version.py:14-23 | the in-place change of the split version, joined again; fails exactly when the component to bump is missing or not a number |
| Versions.BumpsOneComponent | bump-version.py:14-23 | a bump changes the components it is about and no others, whatever texts these are |
| Versions.NextIsGreater | bump-version.py:14-23 | a bump gives a three-part version with the expected numbers, strictly greater |
| Versions.AddToVersionListLine | bump-version.py:34-48 | inserts in front of the first greater version, fails exactly when a comparison before that place fails; on a line of the list this is the specified insertion |
| Versions.LineRoundTrip | bump-version.py:34-48 | a printed list of versions is a line of the list and parses back |
| Versions.InsertKeepsAscending | bump-version.py:38-46 | the insertion keeps the order and puts the addition after its equals |
| Versions.AdditionKeepsLine | bump-version.py:34-48 | a sorted line becomes a sorted line with exactly the addition more |
| Versions.ListStaysSorted | bump-version.py:83-103 | over every run of bumps the line stays well formed and sorted and gains exactly the released versions |
| Versions.ReleasesAreAppended | bump-version.py:83-103 | when nothing listed is above the release, the bumps are appended in order |
| Policies.FillsOnlyUnset | pkg/clients/policy/policy.go:29-74 | with complete subjects no set cell changes, and each unset cell, role id, type and description takes the observed value |
| Policies.CellExact | pkg/clients/policy/policy.go:36-69 | every resource cell after late initialization, incomplete subjects included |
| Policies.LateInitExact | pkg/clients/policy/policy.go:29-74 | every other field, the role ids and the shape after late initialization |
| Policies.PanicsExactly | pkg/clients/policy/policy.go:36-69 | which cells and roles must be there for late initialization not to panic |
| Policies.TestExact | pkg/clients/policy/policy.go:123-147 | the up-to-date test, list by list |
| Policies.SubjectsDecide | pkg/clients/policy/policy.go:60-69 | set cells are kept for every spec and remote exactly when every subject attribute has name and value |
| Policies.ObservedShapeIsSafe | pkg/clients/policy/policy.go:36-69 | lists of the observed shape with complete subjects stay in bounds |
| Policies.LateInitIdempotent | pkg/clients/policy/policy.go:29-74 | a second application stays in bounds and changes nothing |
| Policies.UnsetSpecIsUpToDate | pkg/clients/policy/policy.go:29-135 | an unset spec is up to date after late initialization; the exact condition for staying in bounds |
| PolicyClient.GenerateCRRoles | pkg/clients/policy/policy.go:176-185 | role ids in order, the empty string for a missing one |
| PolicyClient.GenerateCRResources | pkg/clients/policy/policy.go:150-173 | a copy of all attributes |
| PolicyClient.GenerateCRSubjects | pkg/clients/policy/policy.go:188-210 | a copy of all attributes |
| PolicyClient.IsUpToDate | pkg/clients/policy/policy.go:123-135 | equality of all five fields up to nil and empty lists, which TestExact spells out |
| PolicyClient.Policy.FillResources | pkg/clients/policy/policy.go:36-48 | the first nested loop in place, with the exact condition of an index panic |
| PolicyClient.Policy.FillRoleIDs | pkg/clients/policy/policy.go:52-56 | the role loop in place, with the exact condition of an index panic |
| PolicyClient.Policy.FillSubjects | pkg/clients/policy/policy.go:60-69 | the subject loop as written: which resource cells it overwrites, and when it panics |
| PolicyClient.Policy.LateInitializeSpec | pkg/clients/policy/policy.go:29-74 | the whole late initialization, with the exact panic condition |

## Left out

- Client construction, authentication, token refresh and HTTP: foreign libraries; a call is reduced to its effect and its result.
- The reconciler runtime, the kube client, informers and reference resolution: not part of this model. A resource's references are taken as resolved, and writing a late-initialised spec back to the cluster is taken to succeed.
- Conditions, timestamps, logging and error texts: only success, failure and (where an error filter is applied) benign failure are kept.
- Other response fields that are copied through (names, links, units, limits, step sizes, replica assignments): no branch depends on them.
- A response that lists a tag without a name: the source dereferences it; the model's tags all have names.
- The ETag annotation of group memberships: it is recorded and never read.
- Paging of listings: a listing is complete.
- Deletion of access group rules and topics: unconditional single calls.
- The `errors` handling inside a JSON body: reduced to whether any member carries errors.
- Strings are sequences of characters compared one by one; Go compares the bytes of their encoding.
- Topics.Name: config names are a datatype with the six known names and all other texts. A known name is always represented by its own constructor; a value `Other` that holds one of the six texts stands for no config of the source and is treated as unknown.
- Policy writes (`GenerateSDKRoles` takes the address of a loop variable) and the policy controller: the meaning depends on a compiler version that is not shown.
- Versions.CalculateNextVersion: a component counts as a number when it is made of ASCII digits; the script's conversion also accepts signs, surrounding blanks, single underscores and other digits.
- Versions.CompareVersions: the same restriction of what counts as a number.
- Versions.AddToVersionListLine: the same restriction of what counts as a number.
- Argument parsing and the rewriting of other lines by regular expressions in the release script.
- Autoscaling groups, whitelists, Cloudant databases, buckets, custom roles, access groups and resource keys: the same pattern with easier proofs.
