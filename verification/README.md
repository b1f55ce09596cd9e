# A model of pycroft

pycroft administers the network members of student dormitories: who is a member of which group and
when, which logins and unix uids have ever been in use, who lives where, who owes how much, and what
is published to an LDAP directory. The modules below model the parts of it that keep exact state over
time, as the code does it: loops over iterators are loops, objects and tables that are updated in
place are classes, database triggers and constraints are methods that succeed or abort, and
everything is proved against functions and predicates whose meaning is stated separately. Clocks,
sequences of the database, the order in which the database returns rows, permission levels and what
the standard library reads are parameters.

| file | what it models |
|---|---|
| `Intervals.dfy` | bounds and intervals, with the comparisons as they are written |
| `IntervalSets.dfy` | the one-pass merges over sorted iterators: chain, join, complement, intersect |
| `SetAlgebra.dfy` | construction of interval sets, union, intersection, difference, the canonical form |
| `Lengths.dfy` | lengths of interval sets, and an interval minus a ray |
| `Memberships.dfy` | the membership table, its exclusion constraint, joining and leaving a group |
| `MembershipInvariant.dfy` | how far memberships keep apart: the exclusion constraint, clear begins, disjoint closures |
| `Joining.dfy`, `Leaving.dfy` | what joining and leaving a group do, for every interval |
| `MembershipRuns.dfy` | what sequences of these calls keep, blocking and unblocking |
| `Tombstones.dfy` | users, unix accounts and tombstones as a transition system |
| `Triggers.dfy` | the trigger functions and statements that refine it |
| `LdapSync.dfy` | records, their differences, and the directory with its password policy |
| `ErrorCodes.dfy`, `UserIds.dfy` | digits, check codes, and user ids as strings |
| `Books.dfy`, `Ledger.dfy` | splits, the deferred trigger, double entry over runs of transactions |
| `Fees.dfy` | membership fees |
| `FeePosting.dfy` | bulk posting of membership fees by row numbers |
| `Defaults.dfy`, `Ties.dfy` | days in default, whom to block or terminate, and when the order of splits matters |
| `DefaultActions.dfy` | blocking and terminating |
| `Calendar.dfy`, `Estimates.dfy` | month arithmetic and the estimated balance |
| `RoomHistory.dfy` | the history of rooms kept by a trigger |
| `Properties.dfy` | granted and denied properties, in the program and in the database |
| `Serde.dfy` | serialisation of message parameters |

Where the code and its documentation disagree, the model follows the code:

- `meets` is documented to ask for one of the two touching bounds to be closed; it looks at the begin
  of the first interval instead of that of the second (`Intervals.MeetsDeviates`). So (-∞, 5) and
  [5, 7) are not merged, and a set containing them has two representations
  (`SetAlgebra.NotCanonicalBelow`); `SetAlgebra.MangledRegularIff` says when this happens. And [1, 2)
  and (2, 3) are merged, although 2 is in neither.
- `join` and `intersect` ignore closedness when two bounds have the same value. `join` is exact
  precisely when it drops no included end and bridges no gap (`Intervals.JoinExactIff`), `intersect`
  when it keeps no excluded end (`Intervals.IntersectExactIff`).
- `length` of an empty interval set raises a `TypeError`, because the reduction has no initial value
  (`Lengths.LengthMeaning`).
- `disable(at)` leaves the instant `at` in an interval that ends there, included
  (`Lengths.SubtractStartingFrom`).
- Joining during a right-open interval, which blocking with an end date does
  (web/blueprints/user/__init__.py:1078), breaks the invariant behind the exclusion constraint precisely
  when a membership begins where the interval ends, and takes an instant of membership away precisely
  when one ends there and begins inside (`Joining.RightOpenSafeIff`, `Joining.RightOpenLosesIff`).
- Removing a single instant breaks the invariant precisely when a membership has it strictly inside:
  what is left are [a, t) and (t, b] (`Leaving.RemoveMomentIff`).
- Joining violates the exclusion constraint precisely when a membership that is left alone has an instant
  in common with the closure of one that is touched, unless that instant is lost
  (`Joining.MakeAdmittedIff`). It takes a table on which memberships touch, as the previous calls may
  leave it (`Joining.RightOpenDuringTouches`, `Joining.RightOpenDuringCollides`); joining and leaving
  from an instant on are never refused even there (`MembershipRuns.UsualRun`).
- Removing the empty interval [t, t) from disjoint closures violates the constraint precisely when a
  membership that begins before t ends at t (`Leaving.RemoveRefusedIff`,
  `Leaving.RemoveNothingCollides`).
- Removing a member from `t` on changes the past exactly when a membership it cuts excludes its begin,
  and gives the instant `t` back when a membership ended at `t` (`Leaving.PastUnchangedIff`,
  `Leaving.SecondRemovalRegains`).
- Inserting a user onto an account whose tombstone carries a foreign hash overwrites the tombstone,
  although the trigger means to refuse (`Tombstones.RemembersIff`, `Tombstones.ForgottenLogin`).
- A change of password undoes a lock the record keeps, until the next round
  (`LdapSync.OneRoundSufficesIff`).
- The trigger on splits does not check the transaction a split is moved away from
  (`Books.CommitKeepsInvIff`, `Books.MovingEscapes`).
- Posting a fee of zero twice posts it twice (`FeePosting.SecondPosting`).
- A fee is looked up by comparing an instant with two midnights, so that it does not cover its own last
  day after midnight (`Defaults.CoversIff`).
- A final payment deadline with a part of a day yields an end of membership in the future
  (`Defaults.FutureEndIff`).
- Splits valid on the same day may come in any order; `Ties.OrderIrrelevantIff` says when the days in
  default depend on it.
- A comment in the room history trigger announces that a second is added; the code does not, and two
  changes at one instant leave an empty range. The history is faithful all the same
  (`RoomHistory.RunFaithful`).
- Nothing keeps a group from having two rows for one property; then program and database can disagree
  (`Properties.AgreeIff`).
- Reading an amount of money given as a JSON object raises a `KeyError`, which only intervals turn into a
  `ValueError` (`Serde.KeyErrorIff`).

## Model

| member | source | states |
|---|---|---|
| `Intervals.ConstructorMeaning` | pycroft/helpers/interval.py:181-198 | the constructor refuses exactly the pairs that bound no interval, although `+oo < +oo` holds in the order it uses |
| `Intervals.LtMeaning` | pycroft/helpers/interval.py:110-119 | `<` on bounds is the strict order of the values, whatever the closedness, plus the two infinite exceptions |
| `Intervals.LeMeaning` | pycroft/helpers/interval.py:97-108 | `<=` on bounds: where it agrees with the order of the values, and that it is not reflexive on open bounds |
| `Intervals.EmptyMeaning` | pycroft/helpers/interval.py:244-247 | an interval is `empty` iff it contains no instant |
| `Intervals.OverlapsMeaning` | pycroft/helpers/interval.py:370-377 | two nonempty intervals overlap iff they share an instant |
| `Intervals.IntersectExactIff` | pycroft/helpers/interval.py:426-437 | the intersection loses no point, and gains none iff no excluded end of the second is kept |
| `Intervals.JoinExactIff` | pycroft/helpers/interval.py:442-453 | the join of two nonempty intervals is exact iff no included end of the second is dropped and no gap of one instant between the two is bridged |
| `Intervals.MeetsDeviates` | pycroft/helpers/interval.py:349-358 | exactly when `meets` is what it is documented to be |
| `Intervals.PairwiseCounterexamples` | pycroft/helpers/interval.py:426-453 | concrete intervals for which join drops a point, join invents one, intersect keeps one, and touching intervals do not meet |
| `IntervalSets.ChainOrdered` | pycroft/helpers/interval.py:707-728 | the merge of two iterators yields the specified interleaving |
| `IntervalSets.ChainedElements` | pycroft/helpers/interval.py:707-728 | the merge yields the elements of both and nothing else |
| `IntervalSets.ChainedSorted` | pycroft/helpers/interval.py:707-728 | merging two sequences with ascending begins keeps the begins ascending |
| `IntervalSets.JoinOrdered` | pycroft/helpers/interval.py:749-772 | the one-pass join yields the specified merge |
| `IntervalSets.JoinedMerged` | pycroft/helpers/interval.py:749-772 | joining a sorted sequence of right-open, or of closed, intervals keeps exactly the points and leaves nonempty intervals of the family in order (separated, for closed ones and those bounded below) |
| `IntervalSets.ComplementOrdered` | pycroft/helpers/interval.py:731-746 | the one-pass complement yields the specified gaps, or raises |
| `IntervalSets.ComplementRaisesIff` | pycroft/helpers/interval.py:731-746 | the complement raises exactly when two consecutive intervals run into each other |
| `IntervalSets.ComplementExact` | pycroft/helpers/interval.py:731-746 | on every ordered set, of any closedness, the complement contains exactly the other points |
| `IntervalSets.IntersectOrdered` | pycroft/helpers/interval.py:775-792 | the two-way merge yields the specified intersections |
| `IntervalSets.IntersectExact` | pycroft/helpers/interval.py:775-792 | exactly the common points, on ordered right-open sets and on separated closed ones |
| `IntervalSets.IntersectedForm` | pycroft/helpers/interval.py:775-792 | the merge of ordered sets is ordered and free of empty intervals; of separated sets, separated |
| `SetAlgebra.SortedIsArrangement` | pycroft/helpers/interval.py:693-694 | sorting rearranges the intervals and leaves their begins ascending, in spite of `-oo < -oo` |
| `SetAlgebra.MangledExact` | pycroft/helpers/interval.py:686-697 | construction from an interval, a set, nothing or an iterable keeps exactly the points of right-open arguments |
| `SetAlgebra.UnionExact` | pycroft/helpers/interval.py:661-663 | union of right-open sets: the points of either, right-open again |
| `SetAlgebra.UnionMerged` | pycroft/helpers/interval.py:661-663 | union is exact on either family |
| `SetAlgebra.IntersectionExact` | pycroft/helpers/interval.py:668-670 | intersection of right-open sets: the points of both, right-open again |
| `SetAlgebra.ComplementOfRightOpen` | pycroft/helpers/interval.py:655-656 | complement of a right-open set: the points outside, right-open again, and it never raises |
| `SetAlgebra.DifferenceExact` | pycroft/helpers/interval.py:675-677 | difference of right-open sets: the points of the first outside the second, right-open again, and it never raises |
| `SetAlgebra.MangledCanonical` | pycroft/helpers/interval.py:686-697 | any iterable of right-open intervals bounded below gives a canonical set: sorted, nonempty, strictly separated |
| `SetAlgebra.UnionCanonical` | pycroft/helpers/interval.py:661-663 | union keeps the canonical form |
| `SetAlgebra.IntersectionCanonical` | pycroft/helpers/interval.py:668-670 | intersection keeps the canonical form |
| `SetAlgebra.DifferenceCanonical` | pycroft/helpers/interval.py:675-677 | difference keeps the canonical form |
| `SetAlgebra.CanonicalUnique` | pycroft/helpers/interval.py:636-639 | two separated right-open sets of nonempty intervals, bounded below or not, that agree at their endpoints and on being bounded below have equal tuples |
| `SetAlgebra.PointsDetermine` | pycroft/helpers/interval.py:636-639 | so two such sets with the same points are equal |
| `SetAlgebra.GapsOfCanonical` | pycroft/helpers/interval.py:655-656 | the complement of a canonical set is such a set, and sorting and joining it changes nothing |
| `SetAlgebra.MangledRegularIff` | pycroft/helpers/interval.py:686-697 | construction gives such a set iff no interval begins at an instant before which everything is in the set and which no interval has inside |
| `SetAlgebra.UnionRegularIff` | pycroft/helpers/interval.py:661-663 | the union of right-open sets, bounded below or not, is regular iff the two have no fault together |
| `SetAlgebra.UnionAtFault` | pycroft/helpers/interval.py:661-663 | (-oo, 5) and [5, 7), each regular, have a union that is not |
| `SetAlgebra.ArrangementIrrelevant` | pycroft/helpers/interval.py:693-694 | if there is no such instant, the order in which an iterable presents its intervals does not matter |
| `SetAlgebra.NotCanonicalBelow` | pycroft/helpers/interval.py:349-358 | a concrete point set with two tuples: (-oo, 5) with [5, 7), and (-oo, 7) |
| `Lengths.LengthMeaning` | pycroft/helpers/interval.py:612-626 | the length of a set: an error if it is empty, `None` if unbounded, else the sum |
| `Lengths.MeasureIsTotal` | pycroft/helpers/interval.py:612-626 | cut at all endpoints, the sum of the lengths is the measure of the point set |
| `Lengths.InclusionExclusion` | pycroft/helpers/interval.py:612-670 | for bounded canonical sets, length of union plus length of intersection is the sum of the lengths |
| `Lengths.SubtractStartingFrom` | pycroft/model/user.py:603-608 | `disable(at)` on any interval: fails iff nothing is left; keeps exactly the instants before `at` iff the interval does not end at `at`, included; otherwise that instant too |
| `Lengths.DisableAtEnd` | pycroft/model/user.py:603-608 | disabling [0, 1] at 1 changes nothing |
| `Memberships.MembershipTable.MakeMemberOf` | pycroft/lib/membership.py:79-119 | refused iff the level of the group is higher; otherwise replaces the selected rows by the union of their closures and `during`, or rolls back when the exclusion constraint fires |
| `Memberships.MembershipTable.RemoveMemberOf` | pycroft/lib/membership.py:122-166 | likewise with the difference |
| `Memberships.RemoveNeverRaises` | pycroft/lib/membership.py:149-154 | the difference with a single interval never raises, whatever `during` is |
| `Joining.MakeIntervalsPoints` | pycroft/lib/membership.py:108-110 | for every `during` and whatever memberships it touches: the new intervals contain exactly `during` and their closures, without the ends that are lost |
| `Joining.MakeIntervalsForm` | pycroft/lib/membership.py:87-90 | for every `during` and whatever memberships it touches: joining leaves a single interval, or just the joined closures if `during` is empty |
| `Joining.MakeEffect` | pycroft/lib/membership.py:104-114 | for every `during` on every table: exactly the instants of `during` and of the closures it touches are added, and the lost ends taken away unless another membership has them; no other user or group is touched |
| `Joining.MakeKeepsInvIff` | pycroft/model/user.py:624-629 | for every `during`: closures of memberships stay disjoint iff no membership that `during` leaves alone is right next to it |
| `Joining.MakeAdmitted` | pycroft/model/user.py:624-629 | for every `during`: from disjoint closures the exclusion constraint does not fire |
| `Joining.MakeAdmittedIff` | pycroft/model/user.py:624-629 | for every `during` on every table: the exclusion constraint refuses to join iff a membership that `during` leaves alone has an instant, not a lost one, in common with the closure of one it touches |
| `Joining.ClosedAdmittedIff` | pycroft/model/user.py:624-629 | for a closed `during` or a ray on every table: refused iff a membership left alone conflicts with the closure of one that is touched |
| `Joining.RightOpenAdmittedIff` | pycroft/model/user.py:624-629 | for [x, y) on every table: the same, but for the instant y where it is lost |
| `Joining.MakeKeepsExclusive` | pycroft/model/user.py:624-629 | for every `during` on every table: a join that is admitted makes no memberships overlap |
| `Joining.MakeFromKeepsOrder` | pycroft/model/user.py:624-629 | joining from t on is never refused where begins are clear of other memberships, also where memberships touch, and keeps the table so |
| `Joining.MakeFromInvClear` | pycroft/model/user.py:624-629 | from disjoint closures, joining during anything that includes its begin leaves such a table, also if memberships then touch |
| `Joining.ClosedEffect` | pycroft/lib/membership.py:104-114 | on every table, also where memberships touch: with a closed `during` or a ray nothing is lost and one membership is left |
| `Joining.RightOpenSafeIff` | pycroft/lib/membership.py:104-114 | [x, y) keeps closures disjoint iff no membership begins at y |
| `Joining.RightOpenLosesIff` | pycroft/lib/membership.py:104-114 | [x, y) takes an instant of membership away iff a membership ends at y, included, and begins at x or later |
| `Joining.RightOpenDuringTouches` | pycroft/lib/membership.py:104-114 | [0, 1) next to [1, 2) is admitted and leaves two memberships that touch |
| `Joining.RightOpenDuringCollides` | pycroft/model/user.py:624-629 | and then a later join, even by one instant, violates the exclusion constraint |
| `Joining.RightOpenDuringSpares` | pycroft/model/user.py:624-629 | while joining during [0, 1) again does not, since the common instant is lost |
| `Joining.RightOpenDuringLoses` | pycroft/lib/membership.py:104-114 | [0, 1) on [0, 1] makes the user no member at 1 |
| `Joining.MadeFrom` | pycroft/lib/membership.py:104-114 | on every table: joining from t on makes the user a member at every instant from t, loses nothing before, and gains nothing before if no membership excludes its begin |
| `Leaving.RemovePieces` | pycroft/lib/membership.py:149-154 | for every `during`, with disjoint closures: leaving produces exactly the nonempty pieces of the closures in front of and behind it |
| `Leaving.RemoveIntervalsPoints` | pycroft/lib/membership.py:149-154 | for every `during` and whatever memberships it touches: the new intervals contain exactly the closures outside of `during`, and the included ends of `during` at which touching memberships end or begin |
| `Leaving.RemoveEffect` | pycroft/lib/membership.py:149-161 | for every `during` on every table: exactly which instants of membership are taken away, stay or are added; no other user or group is touched |
| `Leaving.RemoveAdmittedIff` | pycroft/model/user.py:624-629 | for every `during` on every table: the exclusion constraint refuses to leave iff `during` is [t, t) and touching memberships end at t, or a membership left alone conflicts with the closure of one that is touched |
| `Leaving.RemoveRefusedIff` | pycroft/model/user.py:624-629 | with disjoint closures: refused iff `during` is [t, t) and a membership that begins before t ends at t |
| `Leaving.RemoveNothingCollides` | pycroft/model/user.py:624-629 | removing [1, 1) from [0, 1] is refused |
| `Leaving.RemoveKeepsExclusive` | pycroft/model/user.py:624-629 | for every `during` on every table: leaving, if admitted, makes no memberships overlap |
| `Leaving.RemoveFromKeepsOrder` | pycroft/model/user.py:624-629 | leaving from t on is never refused where begins are clear of other memberships, also where memberships touch, and keeps the table so |
| `Leaving.RemoveKeepsInvIff` | pycroft/model/user.py:624-629 | for every `during`: closures of memberships stay disjoint iff no membership is cut in two by a `during` whose ends coincide |
| `Leaving.RemoveKeepsInv` | pycroft/model/user.py:624-629 | and then the exclusion constraint does not fire |
| `Leaving.RemoveMomentIff` | pycroft/lib/membership.py:149-161 | removing a single instant keeps closures disjoint iff no membership has it strictly inside |
| `Leaving.RemoveMomentTouches` | pycroft/lib/membership.py:149-161 | removing 1 from [0, 2] leaves two memberships that touch |
| `Leaving.RemoveFromEffect` | pycroft/lib/membership.py:149-161 | on every table, after leaving from t on: out after t; at t a member iff touching memberships ended at t; before t nothing lost, and gained exactly the excluded ends of cut memberships |
| `Leaving.PastUnchangedIff` | pycroft/lib/membership.py:149-154 | also where memberships touch: leaving from t on leaves the past alone iff no membership it cuts excludes its begin |
| `Leaving.LeftOpenGains` | pycroft/lib/membership.py:149-154 | the excluded begin of a membership that is cut is gained |
| `Leaving.PastRegains` | pycroft/lib/membership.py:149-154 | cutting (0, 2] at 1 makes the user a member at 0 |
| `Leaving.SecondRemovalRegains` | pycroft/lib/membership.py:149-154 | a concrete run in which leaving twice at one instant makes the user a member at that instant |
| `Leaving.RemovedFrom` | pycroft/lib/membership.py:149-161 | on every table, leaving from t on: out after t, nothing lost before, nothing gained before unless a left-open membership is cut, a member at t only if a membership ended there |
| `MembershipRuns.Replay` | pycroft/lib/membership.py:79-166 | every run of calls on every table: each is refused by level or by the constraint exactly as specified, and the run ends in the specified table |
| `MembershipRuns.RunKeepsExclusive` | pycroft/lib/membership.py:79-166 | no run, whatever its intervals, makes nonempty memberships of one user in one group overlap |
| `MembershipRuns.UsualRun` | pycroft/lib/membership.py:79-166 | runs of joins that include their begin and removals that exclude their end keep begins included and memberships, which may touch, from overlapping; all along, no call from an instant on is refused by the constraint |
| `MembershipRuns.OnwardNeverCollides` | pycroft/model/user.py:624-629 | where begins are clear of other memberships, no call from an instant on is refused by the constraint |
| `MembershipRuns.StepIff` | pycroft/lib/membership.py:79-166 | a call keeps closures disjoint iff it is safe |
| `MembershipRuns.SafeRunIff` | pycroft/lib/membership.py:79-166 | a run keeps closures disjoint all along iff each of its calls is safe on the table it meets |
| `MembershipRuns.AlwaysSafeRun` | pycroft/lib/membership.py:79-166 | closed joins, joins from an instant on, and removals of more than an instant are safe everywhere, and never refused by the constraint in a run from disjoint closures |
| `MembershipRuns.PlainRunKeepsBegins` | pycroft/lib/membership.py:79-166 | runs of such calls, of which joins include their begin and removals exclude their end, never make a left-open membership |
| `MembershipInvariant.OrderlyIsClear` | pycroft/model/user.py:624-629 | where begins are included, the exclusion constraint alone keeps begins clear of other memberships |
| `MembershipInvariant.InvIsClear` | pycroft/model/user.py:624-629 | so do disjoint closures |
| `MembershipInvariant.TouchingIsOrderly` | pycroft/model/user.py:624-629 | [0, 1) next to [1, 2] is such a table, although the closures meet |
| `Leaving.PastUnchanged` | pycroft/lib/membership.py:149-154 | without left-open memberships leaving from an instant on never changes the past |
| `MembershipRuns.Unblock` | pycroft/lib/user/blocking.py:66-92 | after unblocking the user has left all the groups as of the instant, with the past in them as `Leaving.RemovedFrom` says; other memberships are untouched; a refusal undoes everything |
| `MembershipRuns.BlockUndone` | pycroft/lib/user/blocking.py:28-92 | joining a group from t on and leaving it from t on restores all instants of membership of a user without one from t on |
| `MembershipRuns.BlockThenUnblock` | pycroft/lib/user/blocking.py:28-96 | blocking in either group and unblocking in all three restores all instants of membership of a user who is in none of them from t on |
| `MembershipRuns.Block` | pycroft/lib/user/blocking.py:28-63 | on every table: with `violation` the user is in the violation group, otherwise in the blocked group, throughout the interval or from now on, and nothing else changes; refused by the level of that group or exactly if there is a collision, never from disjoint closures; what it leaves suits everything below, also if the interval has an end |
| `MembershipRuns.BlockUntilThenUnblock` | pycroft/lib/user/blocking.py:28-96 | blocking during an interval with an end and unblocking: out of all three groups after the instant, everything else untouched |
| `Tombstones.StepKeepsInv` | pycroft/model/unix_account.py:59-119 | every statement that goes through keeps: one tombstone per login and per uid, shared by a coupled user and account |
| `Tombstones.RunKeepsInv` | pycroft/model/unix_account.py:59-119 | so does every run of statements |
| `Tombstones.RemembersIff` | pycroft/model/unix_account.py:264-277 | a statement forgets neither login, uid nor pair, unless it inserts a user onto an account with a foreign hash |
| `Tombstones.RunRemembers` | pycroft/model/unix_account.py:59-101 | along runs as `create_user` makes them tombstones only grow and pairs are never dissolved |
| `Tombstones.LoginNeverReused` | pycroft/model/unix_account.py:256-266 | along such runs a login once used is never inserted again, even after its user is deleted |
| `Tombstones.UidKeepsLogin` | pycroft/model/unix_account.py:302-328 | along such runs a uid is never coupled to a second login |
| `Tombstones.UidNeverForgotten` | pycroft/model/unix_account.py:59-101 | a uid once in use keeps a tombstone, along every run |
| `Tombstones.EveryStoneTells` | pycroft/model/unix_account.py:59-101 | no run leaves a tombstone with neither a uid nor a login |
| `Tombstones.ForgottenLogin` | pycroft/model/unix_account.py:264-277 | a concrete state in which an insert onto a used account frees the earlier login |
| `Triggers.Database.UnixAccountEnsureTombstone` | pycroft/model/unix_account.py:180-212 | the trigger adds a tombstone for a new uid and leaves an old one |
| `Triggers.Database.UserEnsureTombstoneOnInsert` | pycroft/model/unix_account.py:241-279 | the insert branch, including the refusal that cannot fire |
| `Triggers.Database.UserEnsureTombstoneOnUpdate` | pycroft/model/unix_account.py:285-331 | the update branch: what is refused, and that the assertion on the user's own tombstone holds |
| `Triggers.Database.CheckConsistency` | pycroft/model/unix_account.py:355-411 | the defensive check fires exactly if user and account do not share a tombstone |
| `Triggers.Database.InsertAccount` | pycroft/model/unix_account.py:184-232 | goes through iff id and uid are unused; then the account has the uid, which has a tombstone, new if it had none, and everything else is as before; otherwise nothing changes |
| `Triggers.Database.InsertUser` | pycroft/model/unix_account.py:241-279 | goes through iff the id is free and no tombstone has the login (alone), or the account exists, nobody holds the tombstone of its uid and no other one has the login (with an account); then the row is there, the tombstone is its own or shared with the account, and everything else is as before; otherwise nothing changes, and never by a failed assertion or the consistency check |
| `Triggers.Database.SetAccount` | pycroft/model/unix_account.py:281-331 | coupling goes through iff the account exists and uid and login have one tombstone or one half each; then the user has the account, they share a tombstone, and everything else is as before; uncoupling always goes through; otherwise nothing changes |
| `Triggers.Database.DeleteUser` | pycroft/model/unix_account.py:59-119 | the row is gone; everything else, tombstones included, is as before |
| `Triggers.Database.DeleteAccount` | pycroft/model/unix_account.py:281-295 | the account is gone, its user has none any more through the update triggers, and everything else is as before |
| `Triggers.Database.CreateUser` | pycroft/lib/user/lifecycle.py:83-113 | refused iff the login has a tombstone; otherwise user and account come to share a new one |
| `Triggers.InsertUserOutcome` | pycroft/model/unix_account.py:241-279 | trigger and constraints together decide an insert as the transition system does |
| `Triggers.SetAccountOutcome` | pycroft/model/unix_account.py:285-331 | under the invariant, coupling never meets the unique constraint of the account |
| `LdapSync.RecordClassesSane` | ldap_sync/concepts/record.py:125-160 | users carry every attribute the exporter knows but `member`; groups carry three, two of them in common with users; only users carry what the overlay looks at |
| `LdapSync.InitRecord` | ldap_sync/concepts/record.py:85-91 | for each synchronised attribute: a list is kept as it is, a nonempty single value becomes a list of one, and an empty one, `None` or a missing one becomes empty; all others are dropped |
| `LdapSync.MakeRecord` | ldap_sync/concepts/record.py:85-91 | a record has exactly the synchronised attributes |
| `LdapSync.DiffRaisesIff` | ldap_sync/record_diff.py:57-77 | two records cannot be compared iff both are missing, or they differ and are of different dn or class |
| `LdapSync.DiffMinimal` | ldap_sync/record_diff.py:21-77 | a modification has the new values of exactly the attributes that differ, but for a lock that is to be cleared together with a change of password |
| `LdapSync.LaterWins` | ldap_sync/record_diff.py:98-99 | the later of two records of one dn counts |
| `LdapSync.Directory.Execute` | ldap_sync/execution.py:25-65 | other entries stay; a modified attribute reads as its new values, a lock that a new password clears as nothing, any other as before, and no attribute without values is stored; adding keeps an entry that exists; a deleted entry is gone; idling changes nothing |
| `LdapSync.EffectIsExecuted` | ldap_sync/execution.py:25-65 | these facts determine the directory afterwards |
| `LdapSync.Directory.Sync` | ldap_sync/record_diff.py:92-101 | a round of read, diff and execute, in any order of the actions, has the one specified result, and is idle iff the directory reads as desired |
| `LdapSync.ModifiedReads` | ldap_sync/record_diff.py:35-48 | after one modification every attribute reads as desired, except a kept lock |
| `LdapSync.OneModification` | ldap_sync/record_diff.py:35-48 | one modification makes an entry read as desired iff it does not keep its lock through a change of password; two always do |
| `LdapSync.OtherAttributesUntouched` | ldap_sync/execution.py:45-52 | attributes that are not synchronised are left alone |
| `LdapSync.OneRoundSufficesIff` | ldap_sync/record_diff.py:35-48 | one round makes the directory read as desired iff no entry keeps its lock through a change of password |
| `LdapSync.LockLost` | ldap_sync/record_diff.py:42-47 | a locked user record of the exporter that keeps the lock and changes the password is unlocked after one round |
| `LdapSync.TwoRoundsConverge` | ldap_sync/record_diff.py:57-101 | from any directory two rounds make it read as desired |
| `LdapSync.ConvergedIsStable` | ldap_sync/record_diff.py:64-65 | from then on all actions are idle and nothing changes |
| `ErrorCodes.Digits` | pycroft/helpers/errorcode.py:12-26 | the generator yields the specified digits of the absolute value, or raises iff the base is less than 2 |
| `ErrorCodes.DigitsMeaning` | pycroft/helpers/errorcode.py:12-26 | the digits are below the base, have no superfluous zero, and denote the number |
| `ErrorCodes.Type2ValidIff` | pycroft/helpers/errorcode.py:70-76 | `is_valid` accepts the calculated code, and among 2 to 98 no other |
| `ErrorCodes.CodeExamples` | tests/helpers/test_errorcode.py:9-22 | digits and codes of 0 and 1234 |
| `UserIds.CheckAcceptsIff` | pycroft/lib/user/user_id.py:49-64 | the check accepts exactly what the two encoders print |
| `UserIds.DecodeEncoded` | pycroft/lib/user/user_id.py:8-46 | decoding gives number and code back, and the two types are never confused |
| `UserIds.DecodeIff` | pycroft/lib/user/user_id.py:34-46 | decoding recognises exactly four or more digits, a dash and as many digits as the code has, with or without a final newline |
| `UserIds.IdExamples` | pycroft/lib/user/user_id.py:8-30 | 7 and 1234 as ids of both types |
| `UserIds.FormatCanonical` | pycroft/lib/user/user_id.py:30 | a digit string is a formatted number iff only the padding starts with zeros |
| `UserIds.Type2IsDashed` | pycroft/lib/user/user_id.py:28-30 | every id of type 2 is a string of at least four digits, a dash and two digits, and denotes the number followed by its code |
| `UserIds.Type2DetectsChange` | pycroft/helpers/errorcode.py:63-76 | for ids of any length, no change of one digit of a valid type-2 id is accepted |
| `UserIds.Type2DetectsSwap` | pycroft/helpers/errorcode.py:63-76 | nor any swap of two different neighbouring digits, not even across the dash |
| `UserIds.Type1AcceptedIff` | pycroft/helpers/errorcode.py:46-57 | type-1 ids are exactly formatted numbers with their digit sum modulo 10 |
| `UserIds.Type1DetectsChange` | pycroft/helpers/errorcode.py:46-57 | no change of one digit of a valid type-1 id is accepted |
| `UserIds.Type1MissesSwap` | pycroft/helpers/errorcode.py:46-57 | a swap of neighbouring digits of the number is accepted iff it does not spoil the leading digit |
| `Books.CommitKeepsInvIff` | pycroft/model/finance.py:259-302 | a commit the deferred trigger accepts keeps all transactions balanced iff those that splits were moved away from pass as well |
| `Books.CommitKeepsInv` | pycroft/model/finance.py:259-302 | in particular if no split changes its transaction |
| `Books.MovingEscapes` | pycroft/model/finance.py:266-275 | a concrete commit that is accepted and leaves a transaction with one split |
| `Books.TotalIsZero` | pycroft/model/finance.py:273-283 | if all transactions balance, so do the books |
| `Books.BooksBalance` | pycroft/model/finance.py:140-145 | the balances of all accounts sum to zero |
| `Ledgers.Ledger.CountAndSum` | pycroft/model/finance.py:273-274 | the aggregate query: number and sum of the splits of a transaction |
| `Ledgers.Ledger.Trigger` | pycroft/model/finance.py:259-287 | the trigger passes iff the transaction is gone or has two splits, and its splits cancel out |
| `Ledgers.Ledger.Commit` | pycroft/model/finance.py:293-302 | a commit passes iff every transaction of an inserted, deleted or changed split passes |
| `Ledgers.Ledger.ComplexTransaction` | pycroft/lib/finance/transaction_crud.py:71-93 | refused iff not balanced, of less than two splits, or with an account twice; otherwise adds exactly its rows; the deferred trigger accepts them |
| `Ledgers.Ledger.SimpleTransaction` | pycroft/lib/finance/transaction_crud.py:30-67 | moves the amount from one balance to the other and changes no third; refused iff the accounts are one |
| `Ledgers.Ledger.TransactionDelete` | pycroft/lib/finance/transaction_crud.py:97-104 | refused iff confirmed; otherwise takes exactly its splits away |
| `Ledgers.Ledger.TransactionConfirm` | pycroft/lib/finance/transaction_crud.py:108-115 | refused iff confirmed or without splits; changes nothing else |
| `Ledgers.Replay` | pycroft/lib/finance/transaction_crud.py:30-115 | after any run all transactions balance, the balances of all accounts sum to zero, and splits of confirmed transactions are still there |
| `FeePosting.EligibleUsers` | pycroft/lib/finance/membership_fee.py:174-202 | exactly the users with the undenied fee property at the begin or the end of booking and no booking of the fee yet |
| `FeePosting.HasFeePropertyIff` | pycroft/lib/finance/membership_fee.py:97-146 | the fee property at an instant: an active group grants it and none denies it |
| `FeePosting.BookingBegins` | pycroft/lib/finance/membership_fee.py:97-99 | the instant asked for first: midnight at the begin of the day on which booking begins, the first day of the fee being the first |
| `FeePosting.BookingEnds` | pycroft/lib/finance/membership_fee.py:100-102 | the instant asked for second: a microsecond before the end of the day on which booking ends |
| `FeePosting.HasToPayMeaning` | pycroft/lib/finance/membership_fee.py:195-202 | either of the two suffices, and one is needed |
| `FeePosting.BookedMeaning` | pycroft/lib/finance/membership_fee.py:170-194 | booked is who has a split in a transaction valid within the fee that also credits a fee account |
| `FeePosting.EligibleMeaning` | pycroft/lib/finance/membership_fee.py:166-202 | eligible is who has to pay and is not booked |
| `FeePosting.Accounting.Post` | pycroft/lib/finance/membership_fee.py:222-343 | whatever the two numberings: names the eligible users; unless it simulates, adds the transactions and splits, or nothing if a user's account is the fee account |
| `FeePosting.EveryoneOnce` | pycroft/lib/finance/membership_fee.py:253-343 | each eligible user gets a new transaction of exactly two splits: the fee on the own account, and its negative on the account of the building at the end of the fee, without one of that at its begin, without either on the default |
| `FeePosting.MovedWithinMonth` | pycroft/lib/finance/membership_fee.py:119-121 | a member who moves within the month pays to the building at the end |
| `FeePosting.PostedAccepted` | pycroft/model/finance.py:259-302 | every new transaction has two splits that cancel out, and old transactions are as before |
| `FeePosting.PostingKeepsBooks` | pycroft/model/finance.py:259-302 | a posting without clashes passes the deferred trigger and keeps every transaction balanced, so that the balances of all accounts add up to zero afterwards |
| `FeePosting.AccountPaysOnce` | pycroft/lib/finance/membership_fee.py:308-330 | the balance of an affected user rises by the fee, once |
| `FeePosting.OneOwnAccount` | pycroft/lib/finance/membership_fee.py:308-330 | the account of a single user is its own unless it is the fee account |
| `FeePosting.SecondPosting` | pycroft/lib/finance/membership_fee.py:174-194 | posting again affects nobody if the fee is positive, and the same users if it is zero |
| `FeePosting.ZeroFeeAgain` | pycroft/lib/finance/membership_fee.py:174-202 | a fee of nothing is posted for the same user again |
| `FeePosting.OtherFeesUnaffected` | pycroft/lib/finance/membership_fee.py:186-194 | posting a fee changes nobody's eligibility for a fee whose days do not include its last day |
| `Defaults.CountInDefaultDays` | pycroft/model/finance.py:147-169 | the scan computes the specified days |
| `Defaults.FirstOverdueMeaning` | pycroft/model/finance.py:147-169 | the overdue day is that of the split with which the running balance turned positive for the last time; there is none iff the balance is not positive |
| `Defaults.InDefaultIff` | pycroft/model/finance.py:147-169 | at least d days in default iff the balance was positive throughout the last d days |
| `Defaults.TiesMatter` | pycroft/model/finance.py:152-154 | two orders of three concrete splits with different days in default |
| `Ties.OrderIrrelevantIff` | pycroft/model/finance.py:152-169 | the days in default are the same for all orders of the splits of a day iff on every day after the overdue one the balance before it plus its negative amounts is positive |
| `Ties.OverdueDayExists` | pycroft/model/finance.py:152-169 | if the final balance is positive there is a first day from which all balances at the end of a day are |
| `Ties.NotBefore` | pycroft/model/finance.py:152-169 | the days in default never start before that day |
| `Defaults.LastApplied` | pycroft/lib/finance/membership_fee.py:60-66 | the fee with the latest end among those that have ended, if any |
| `Defaults.FeeForMeaning` | pycroft/lib/finance/payment_in_default.py:95-103 | the fee that decides is the only one that covers the instant, or, if none does, the first of those that ended last; there is none iff several cover it, or none does and none has ended |
| `Defaults.LastDayUncovered` | pycroft/lib/finance/membership_fee.py:38-51 | no fee is found for an instant after midnight of the last day of a fee |
| `Defaults.CoversIff` | pycroft/lib/finance/membership_fee.py:46-50 | a fee covers an instant iff it covers its day, except after midnight of the last day |
| `Defaults.NoonUncovered` | pycroft/lib/finance/membership_fee.py:46-50 | at noon of its last day a fee does not cover the instant |
| `Defaults.NegativeMembers` | pycroft/lib/finance/payment_in_default.py:67-76 | exactly the fee-paying members with a positive balance |
| `Defaults.SelectInDefault` | pycroft/lib/finance/payment_in_default.py:79-128 | fails iff for some debtor no fee decides; otherwise exactly the debtors are blocked who are past the deadline, not in the group and did not leave it within a week, and exactly those terminated who are past the final deadline and, if past the deadline as well, in the group and did not leave an earlier membership in it within a week |
| `Defaults.SelectionMeaning` | pycroft/lib/finance/payment_in_default.py:95-120 | the same for one member, with the instant of the end: the final deadline after the instant as many days ago as the member is in default |
| `Defaults.NeverBoth` | pycroft/lib/finance/payment_in_default.py:122 | nobody is both to block and to terminate |
| `Defaults.EndDateMeaning` | pycroft/lib/finance/payment_in_default.py:183-185 | the end of a terminated membership is the final deadline after the overdue day |
| `Defaults.FutureEndIff` | pycroft/lib/finance/payment_in_default.py:118-120 | that end lies in the future iff the deadline has a part of a day and its whole days have just passed |
| `Defaults.FutureEnd` | pycroft/lib/finance/payment_in_default.py:118-120 | a deadline of a day and a half and a member in default for a day: the end is half a day away |
| `DefaultActions.MemberNowMeaning` | pycroft/model/user.py:437-460 | `member_of` as a range query is membership at the present instant |
| `DefaultActions.BlockOne` | pycroft/lib/finance/payment_in_default.py:161-165 | unchanged if in the group now, otherwise a member at every instant from now on with the past as before; other memberships are untouched |
| `DefaultActions.EndDefaults` | pycroft/lib/finance/payment_in_default.py:33-51 | members who have paid and are in the group now have left it as of a second ago, with their past as before, and are out at this instant; anybody else is untouched |
| `DefaultActions.MoveOut` | pycroft/lib/user/lifecycle.py:343-354 | a task, and no change, iff the date lies in the future; otherwise the user has left, as of the date, those of the groups it was in, with its past in them as before, and everything else is untouched |
| `DefaultActions.TakeActions` | pycroft/lib/finance/payment_in_default.py:154-191 | everybody to block is in the group from now on unless already in it; everybody to terminate has left as of the end date or has a task due then; their past and all other users are as before; a refusal undoes everything |
| `DefaultActions.SelectAndAct` | pycroft/lib/finance/payment_in_default.py:79-191 | selection and actions together, by the deadlines of the fee that decides: blocked, gone as of the end or with a task due then, everybody else untouched; if final deadlines are whole days, nothing is left for later |
| `DefaultActions.SelectedLeavesAtOnce` | pycroft/lib/user/lifecycle.py:343-351 | with whole days, the end of a selected member is not in the future |
| `Calendar.MonthOf` | pycroft/helpers/date.py:9-14 | the month whose first day is not after, and whose next first day is after, the given day |
| `Calendar.MonthUnique` | pycroft/helpers/date.py:9-14 | there is only one such month |
| `Calendar.DayOfDate` | pycroft/helpers/date.py:9-19 | dates and day numbers correspond |
| `Calendar.MonthLengths` | pycroft/helpers/date.py:16-19 | the lengths of the months of a year |
| `Calendar.LeapYears` | pycroft/helpers/date.py:16-19 | leap years repeat every 400 years; which of some years are |
| `Calendar.DiffMonthMeaning` | pycroft/helpers/date.py:9-14 | `diff_month` is the number of months between two days |
| `Calendar.ReplaceDay` | pycroft/lib/finance/membership_fee.py:394 | replacing the day of a date raises iff the month has no such day |
| `Estimates.MonthsAfterMeaning` | pycroft/lib/finance/membership_fee.py:387-390 | the month-by-month count counts exactly the months that begin on or before the day |
| `Estimates.FutureMonthsMeaning` | pycroft/lib/finance/membership_fee.py:387-390 | a later month is counted iff its booking begins on or before the end of the membership |
| `Estimates.ClosedFormIff` | pycroft/lib/finance/membership_fee.py:387-390 | the difference of month numbers is that count iff it is not negative |
| `Estimates.EstimateBalance` | pycroft/lib/finance/membership_fee.py:365-423 | raises iff there is no fee or a month has no day for the end of booking; otherwise the estimate and the balance add up to minus the fee for the months charged: those between tomorrow and the end brought forward by the begin of booking, this month and an unbooked last one if the property is there at the midnight of their booking end, less this month if it is booked already |
| `Estimates.MonthsMeaning` | pycroft/lib/finance/membership_fee.py:387-419 | the months charged, from the days concerned |
| `Estimates.BetweenExists` | pycroft/lib/finance/membership_fee.py:387-390 | there is always a month of tomorrow and a number of months until the end |
| `RoomHistory.RunFaithful` | pycroft/model/user.py:511-531 | along every run with a clock that does not run backwards no change is refused, and the history names, for every instant, the room of the last change |
| `RoomHistory.ChangeKeepsInv` | pycroft/model/user.py:511-531 | one change: entries stay disjoint, open entries are those of present rooms, and the exclusion constraint does not fire |
| `RoomHistory.EntryAt` | pycroft/model/user.py:692-697 | at every instant at most one entry of a user applies, and it names the room of the last change |
| `RoomHistory.RefusedIff` | pycroft/model/user.py:511-531 | on every table: a change is refused iff another entry of the user names the new room for an instant to come |
| `RoomHistory.UntilMeaning` | pycroft/model/user.py:511-531 | closing an entry keeps its instants before now, and no others |
| `RoomHistory.SameInstant` | pycroft/model/user.py:511-531 | moving in and out at one instant leaves an empty range |
| `RoomHistory.Residents.Assign` | pycroft/model/user.py:511-531 | the trigger: closes the entry of the old room and opens one for the new room, or undoes all if the constraint fires |
| `RoomHistory.Residents.Replay` | pycroft/model/user.py:511-546 | a run of the triggers ends in the faithful history |
| `Properties.EvaluateMeaning` | pycroft/model/property.py:24-48 | a name is granted iff some active group grants and none denies it, and denied iff both happen |
| `Properties.NeverGrantedAndDenied` | pycroft/model/property.py:24-48 | no name is both granted and denied |
| `Properties.HasPropertyMeaning` | pycroft/model/user.py:462-478 | `has_property` holds iff some active group grants the name and none denies it, by the last row of each group |
| `Properties.AgreeIff` | pycroft/model/user.py:469-478 | program and database agree for all users, memberships and times iff no group overrides a denying row by a granting one |
| `Properties.Disagree` | pycroft/model/user.py:469-478 | a group with a denying and then a granting row: the program grants what the database denies |
| `Serde.TypeOfName` | pycroft/helpers/i18n/serde.py:129-131 | qualified names of the types are told apart |
| `Serde.DataTypes` | pycroft/helpers/i18n/serde.py:135-142 | the type chosen along the method resolution order is the most specific one |
| `Serde.SerializesIff` | pycroft/helpers/i18n/serde.py:134-148 | a value serialises iff it and all values inside it are of a supported type or a subclass; otherwise a `TypeError` |
| `Serde.BuiltinWrittenAs` | pycroft/helpers/i18n/serde.py:58-77 | what is written for null, booleans, strings and numbers, and under which names |
| `Serde.TextWrittenAs` | pycroft/helpers/i18n/serde.py:58-77 | likewise for decimals, dates, instants and times |
| `Serde.MoneyWrittenAs` | pycroft/helpers/i18n/serde.py:58-77 | likewise for money and durations |
| `Serde.IntervalWrittenAs` | pycroft/helpers/i18n/serde.py:28-37 | likewise for intervals of values that can be written |
| `Serde.RoundTrip` | pycroft/helpers/i18n/serde.py:134-157 | every supported value, including nested and unbounded intervals, comes back equal, and no constructor raises |
| `Serde.RoundTripBase` | pycroft/helpers/i18n/serde.py:134-157 | values of subclasses come back as values of the types |
| `Serde.IntervalRoundTrip` | pycroft/helpers/i18n/serde.py:79-109 | an interval whose bounds come back comes back |
| `Serde.DeltaAgain` | pycroft/helpers/i18n/serde.py:69-73 | a normal duration is rebuilt as it was |
| `Serde.CountMeaning` | pycroft/helpers/i18n/serde.py:123 | an argument of a duration is a number, a boolean for 1 or 0, or left out for 0 |
| `Serde.DeltaRead` | pycroft/helpers/i18n/serde.py:112-127 | a duration is read as the sum of its weeks, days, hours, minutes, seconds, milliseconds and microseconds |
| `Serde.DeltaTypeErrorIff` | pycroft/helpers/i18n/serde.py:112-127 | anything but numbers and booleans under these names is a `TypeError` |
| `Serde.MakeIntervalMeaning` | pycroft/helpers/i18n/serde.py:105-109 | the constructor refuses a begin at +oo, an end at -oo and an end below the begin; values that do not compare are a `TypeError` |
| `Serde.ReadsLegal` | pycroft/helpers/i18n/serde.py:151-157 | whatever is read, from whatever JSON value, is a legal value of the very types |
| `Serde.ReadingIsStable` | pycroft/helpers/i18n/serde.py:134-157 | what has been read and can be written again reads as the same |
| `Serde.KeyErrorIff` | pycroft/helpers/i18n/serde.py:79-93 | a `KeyError` tells of a missing outermost key or of an amount of money given as an object; inside intervals it has become a `ValueError` |
| `Serde.KeyErrorCases` | pycroft/helpers/i18n/serde.py:79-93 | an empty object and money given as one raise a `KeyError` |
| `Serde.BoundKeyError` | pycroft/helpers/i18n/serde.py:79-93 | a bound that is an empty object raises a `ValueError` |

## Left out

- UnionExact: as for intersection and difference, intervals of mixed closedness are not covered; JoinExactIff and IntersectExactIff say where single steps go wrong there.
- RunRemembers: is stated for runs that insert users without an account or onto an account whose tombstone has no hash; RemembersIff says which statement breaks it.
- Replay: of `Ledgers` has no operation that moves a split to another transaction, as the library functions have none; CommitKeepsInvIff covers it.
- InDefaultIff: takes the splits as ordered by day and not in the future.
- RoundTrip: decimals, dates, times and money amounts are represented by their canonical texts; that the standard library reads its own output is a property of it. NaN and infinite floats, and floats as arguments of `timedelta`, are not modelled; nor is JSON text.
- `Interval.map`, the relations of Allen's algebra that no modelled function uses, and string forms of intervals.
- Instants are real numbers in the interval algebra and seconds in the default days; time zones and the range of Python's dates are not modelled, and the session of the database is taken to be in UTC.
- Python's stable sort is an insertion sort; where construction gives a regular set the result does not depend on it (ArrangementIrrelevant).
- Updates of login or uid, manual edits of tombstones, and the unique home directory of accounts; digests of different logins are taken to differ.
- Cascading deletion of rooms, users, groups and accounts in the history, membership and split tables.
- LDAP search filters, escaping (section 3 of RFC 4515) and passwords of the connection; values are taken as normalised.
- `check_user_id` raises a `ValueError` for a part that is no number, where the model says "not accepted"; negative ids and digits outside ASCII.
- The users whose rooms overlap at an instant, whom the fee query would list twice; the buildings of a user's rooms at the two ends of a fee are given, not taken from the room history.
- Hosts, interfaces, rooms, log messages and mails in `move_out` and `move_in`; whether a user is an active member.
- Which of two fees with the same end was applied last: the former in the order given.
- SQL, sessions, tasks, bank imports, traffic, network addresses and the web frontend.
