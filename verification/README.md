# Verified models of the MCP platform's stateful core

This project models, in Dafny 4.11, the parts of the platform that keep state between requests, and proves what
holds over whole runs of them:

* **Rate limiters.** The strategy-based limiter with its sliding-window log and lazily refilled bucket
  (`utils/rate_limiter.py`), the variable-cost bucket with eviction and truncated hints
  (`mcp_paas/utils/rate_limiter.py`), and three smaller windows with different boundaries and clocks (`server.py`,
  `src/mcp_gateway/api.py`, `src/mcp/services/auth.py`).
* **The multi-tenant account service** (`services/auth.py`): users, tenants, role lists and two lookup indexes.
* **Caches and context tables under interleaving**: the LRU and the versioned model loader
  (`mcp_paas/models/loader.py`), the context manager with its reaper (`services/context_manager.py:453-1059`), and the
  indexed context table with background loads (`mcp_paas/services/context_manager.py`).
* **The gateway's decisions** (`src/mcp_gateway`): server choice, the ordered policy store, dry run against
  execution, and the Code Mode approval table.

## How it is built

| modules | what they hold |
|---|---|
| Basics | what the models share |
| SlidingLog, Bucket | the theory of pruned logs and lazily refilled buckets, shared by all the limiters |
| Usage, UsageRuns, UsageGuarantees, UsageLimiter, UsageFigures | one entry as a value; runs with cleanup passes; the guarantees; the classes that work in place; what all of it comes to in limits, seconds and figures told |
| CostLimiter, CostRuns, CostGuarantees, CostEvictions, CostConfigs, CostWindows | the variable-cost limiter, its runs and guarantees, what evictions and changes of configuration do to them, and all of it in requests per window |
| WindowLimiters, MixedWindows | the three smaller windows; calls that bring windows of their own |
| Accounts, AccountRuns, AccountAuthority, AccountIsolation, AccountClosure, AccountService | the directory as a value; its invariant; who may change what; isolation of records; closing tenants and isolation of permission checks; the classes |
| LruLoader, LruRuns, LruFailures, VersionLoader, VersionOutcomes, VersionUnloads | the two model loaders; how loads end; when each operation succeeds; unloads step by step |
| ContextReaper, ContextTable, ContextTableRuns | the two context managers |
| Registry, Policy, Routing, CodeMode | the gateway |

Every class keeps the fields the program keeps and changes them step by step; each of its methods is proved to do what
a function on values says, and the theorems about runs are about those functions. `dafny verify dfyconfig.toml` checks
everything.

A theorem about runs is only as good as the definitions it is stated through. Each definition that the code and its
specification share (a rate, a permission, an order, a match, an expiry) is therefore also pinned by a lemma that does
not mention it: in requests and seconds, in named roles, in fields of rows, in characters of texts.

## What the proofs say about the code

Some promises hold as they stand; others turn out to hold on exactly the runs described here.

* **Windows.** Admission is optimal: whatever arrivals a rival takes while respecting the limit, the limiter is never
  behind it. This holds for the open, the closed and the whole-second window. The whole-second window of
  `src/mcp/services/auth.py` is documented as per minute and per hour; over real time it keeps its quota for exactly
  those lengths that are at least a second shorter than the period. Calls of `server.py` bring windows of their own to
  one list: every run over a given set of windows, each of which counts a stamp made at the same instant, is answered
  as if nothing were pruned exactly when the limit is at most one or the windows are all the same.
* **In seconds.** A check of the strategy-based limiter passes exactly if fewer than the tenant's own limit were allowed,
  or the limit-th latest lies a window back; a check of the variable-cost limiter exactly if its cost is at most the
  burst limit and what it lacks has been earned at the window's requests every window, so that a spent bucket covers the
  window's requests again exactly a window later.
* **Cleanup** of the strategy-based limiter changes no answer, ever. **Eviction** of the variable-cost limiter goes
  unnoticed in every run exactly when a day refills at least a full bucket, and under the same condition, and no other,
  the budget of an interval holds in every run with evictions. A change of configuration reaches a tracked key exactly
  when the key is evicted, and under the configuration it captured the key's balance is the closed form in every run.
* **Hints.** The window's and the unit bucket's hints are exact. The truncated hint of the variable-cost bucket is
  never a full second too early, evictions or not, and exact if and only if the wait is a whole number of seconds or at
  most one.
* **Headers.** `Remaining` is exact for tracked keys; for untracked ones exactly when the burst limit equals the
  window's limit.
* **Keys.** Two endpoints of a tenant can share a bucket, for some addresses, exactly when one is the other followed by
  a colon and more.
* **Accounts.** Every tenant keeps an active admin and its quota; the quota refusal inside reactivation cannot happen.
  A tenant's user records depend on other tenants in one way only: its own registration can be refused for a taken name.
  What permission checks answer depends on them in one more way: an ADMIN of another tenant can close the tenant.
* **Authority.** A user has a role exactly if its registration or an ADMIN of its tenant gave it and no ADMIN of its
  tenant has removed it since; it is active exactly if its registration, or an ADMIN or MANAGER of its tenant, made it so
  and none of those has deactivated it since. The check in closing a tenant that is meant for actors of other tenants
  never refuses anybody: whoever gets that far is an ADMIN.
* **Closing a tenant** is documented to deactivate its users too. It deactivates nobody, and in every reachable state
  some user is still active afterwards; but from then on every check on its users answers no, for good as far as the
  operations modelled go: `reactivate_tenant` breaks off in the source before it writes anything.
* **LRU.** The table is exactly the most recently requested models; a configured bound below one still admits one
  model. A load that fails leaves the table as it was exactly when no other version of the model was loaded and, where
  the version resolves, the table was empty or had room by number and by memory; otherwise it loses the other version
  and up to three models that made room for nothing, counted exactly.
* **Versions.** The three tables agree and the active version is loaded, after every unload exactly when no cleanup
  hook raises. A load that fails leaves the tables as they were exactly when the version does not resolve, is loaded
  already, or does not come up: one that fails validation stays. The branch that reloads an active version which is not
  loaded is commented as one that should not happen; it is reached exactly when an unload of all versions has popped
  the active one and since then it has not been stored again, no switch has succeeded and no unload of all versions
  has completed, whatever the hooks raise.
* **Reaper.** Counters and tables agree under any interleaving and no clamp ever binds. A context found idle by the
  scan is removed even if somebody uses it before the reaper reaches it.
* **Context table.** A tenant's listing is exact under any interleaving. Looking up by id is not: a deleted context
  can come back if and only if its load was under way when it was deleted.
* **Routing.** Dry run and execution agree under every policy exactly for healthy servers of the request's own tenant.
* **Code Mode.** A submission runs at most once when results can be written as JSON; it runs again exactly when it is
  approved again after an approval whose result could not.

## Conventions

* Clock readings, fresh ids, memory readings, registry answers and the outcome of executed code are inputs. A check
  that reads the clock several times takes several readings, in order. Clocks never go back; fresh ids are unused.
* Each public operation is one atomic step; VersionUnloads takes the versioned loader's unloads apart, and the context
  managers' background work is a step at a time. Some operations re-acquire a lock they hold
  (`utils/rate_limiter.py:437` then `:409`; `mcp_paas/models/loader.py:178` then `:289` and `:1586` then `:1385`) and
  would block if taken literally; the evident intent is modelled.
* Time and tokens are reals, `int(...)` truncates toward zero, and division by a zero rate is an outcome.
* Nested dictionaries keyed tenant then resource, endpoint or email are one map keyed by the pair.
* The order in which a sort leaves models with equal access times is arbitrary, as is the order in which scans list
  what they find. A random draw is any number of its range.
* SQL tables are a map or an insertion-ordered list with upsert in place.

## Model

| member | source | states |
|---|---|---|
| SlidingLog.AdmittedWithinLimit | utils/rate_limiter.py:158-198 | in every timed run no window of the boundary in use holds more admissions than the limit |
| SlidingLog.AdmissionIsOptimal | utils/rate_limiter.py:158-198 | no compliant subset of the arrivals is larger than the admitted set, and the k-th admission is never later than its k-th member |
| SlidingLog.OldestStampDecidesRetry | utils/rate_limiter.py:170-178 | with no admission in between, a retry succeeds exactly once the oldest live stamp has left the window |
| SlidingLog.AdmittedByGap | utils/rate_limiter.py:158-198 | a request is admitted if and only if fewer than the limit were, or the limit-th latest admission lies a window back in seconds |
| SlidingLog.AdmissionsAreApart | utils/rate_limiter.py:158-198 | in every timed run any admission and the one the limit later lie a window apart in seconds |
| SlidingLog.KeepComposes | utils/rate_limiter.py:190-198 | pruning early and then late leaves what pruning late leaves |
| Bucket.RefillComposes | utils/rate_limiter.py:237-253 | refilling in two capped steps is refilling in one |
| Bucket.LazyPairIsClosedForm | mcp_paas/utils/rate_limiter.py:242-261 | the lazily stored balance is the minimum over all suffixes of grants of capacity plus refill minus cost |
| Bucket.IntervalBound | mcp_paas/utils/rate_limiter.py:242-261 | the cost granted in any interval is at most capacity plus what the interval refills |
| Bucket.FirstAffordableInstant | utils/rate_limiter.py:216-222 | after a refusal a cost is covered exactly from the missing tokens over the rate onwards, and never above capacity |
| UsageLimiter.SlidingWindowStrategy.CheckLimit | utils/rate_limiter.py:158-180 | prunes, compares and hints exactly as the value-level reply |
| UsageLimiter.SlidingWindowStrategy.UpdateUsage | utils/rate_limiter.py:182-188 | records the stamp and the new count |
| UsageLimiter.SlidingWindowStrategy.CleanupExpired | utils/rate_limiter.py:190-198 | keeps exactly the live stamps |
| UsageLimiter.TokenBucketStrategy.CheckLimit | utils/rate_limiter.py:204-222 | answers from the capped refilled balance without writing it; a zero rate divides by zero only on refusal |
| UsageLimiter.TokenBucketStrategy.UpdateUsage | utils/rate_limiter.py:224-235 | stores the refilled balance less one token and its instant |
| UsageLimiter.TokenBucketStrategy.CleanupExpired | utils/rate_limiter.py:237-253 | stores the refilled balance and its instant |
| UsageLimiter.RateLimiter.CheckRateLimit | utils/rate_limiter.py:351-466 | one check changes exactly its own key's entry, as on values, and tells the caller the current usage, limit and hint on refusal |
| UsageLimiter.RateLimiter.CurrentUsage | utils/rate_limiter.py:407-422 | the usage figure, and the pruning that reading it does to a window |
| UsageLimiter.RateLimiter.PeriodicCleanup | utils/rate_limiter.py:618-652 | one pass tidies every entry, each at its own instants, and drops exactly the empty windows idle for two windows |
| UsageLimiter.TidyAllStep | utils/rate_limiter.py:624-652 | a pass over the nested tables is one tidy step per key, in any order |
| UsageRuns.TableFollowsKeys | utils/rate_limiter.py:424-466 | in a run mixing keys and cleanups each entry and each answer is what the key's own checks alone give |
| UsageRuns.CleanupIsTransparent | utils/rate_limiter.py:611-659 | deleting every cleanup pass from a run leaves every reply unchanged, for both strategies |
| UsageRuns.ReplyFollowsKey | utils/rate_limiter.py:424-466 | the next reply on a key depends on that key's own checks only |
| UsageGuarantees.EveryWindowWithinLimit | utils/rate_limiter.py:158-198 | in every run mixing keys and cleanups no window of a key exceeds its limit |
| UsageGuarantees.RunAdmitsOptimally | utils/rate_limiter.py:158-198 | in every such run, with one clock reading per check, a key's admissions are optimal among its arrivals |
| UsageGuarantees.WindowHintIsExact | utils/rate_limiter.py:170-180 | with nothing admitted on the key in between, a later check succeeds exactly from the hinted instant on |
| UsageGuarantees.EveryIntervalWithinBudget | utils/rate_limiter.py:201-253 | in every run, any interval grants a key at most burst plus refill |
| UsageGuarantees.BucketHintIsExact | utils/rate_limiter.py:216-222 | the unit bucket's hint is the exact first instant a retry succeeds |
| UsageFigures.WindowPassesExactly | utils/rate_limiter.py:158-180 | in every run a check passes if and only if fewer than the limit were allowed on the key, or the limit-th latest of them at least the window's seconds ago |
| UsageFigures.AllowedAreApart | utils/rate_limiter.py:158-198 | in every run what a key is allowed lies at least the window's seconds from what it is allowed the limit later |
| UsageFigures.NoLimitRefusesAll | utils/rate_limiter.py:170-178 | a limit below one refuses every check, with the whole window as the hint |
| UsageFigures.WindowRefusalTells | utils/rate_limiter.py:390-422 | a refusal under the window tells the configured limit, the hint, and how many were allowed in the window that ends then |
| UsageFigures.BucketRefusalTells | utils/rate_limiter.py:390-416 | a refusal by the bucket tells the limit, the hint, and the least whole number of tokens that fills the stored balance up to the burst |
| UsageFigures.BucketDividesExactly | utils/rate_limiter.py:216-222 | the division by zero answers exactly a shortage of a bucket that never refills |
| UsageFigures.EntriesShowTheirStamps | utils/rate_limiter.py:182-198 | in every run with cleanups a window's entry counts the stamps it holds and dates from the last of them |
| UsageFigures.WindowTidiedExactly | utils/rate_limiter.py:618-652 | cleanup drops a window's entry if and only if all its stamps are a window old and it was last written more than two windows ago, and otherwise keeps exactly the newer stamps |
| UsageFigures.BucketTidiedExactly | utils/rate_limiter.py:237-253 | cleanup keeps every bucket and brings its balance up to the instant, no higher than the burst |
| UsageFigures.OwnLimitDecides | utils/rate_limiter.py:345-349 | in every run the tenant's own limit and window for the resource decide a check, and the default's where it has none |
| CostLimiter.RateLimiter.SetTenantConfig | mcp_paas/utils/rate_limiter.py:149-155 | changes the configuration of that tenant and of no other |
| CostLimiter.RateLimiter.CheckRateLimit | mcp_paas/utils/rate_limiter.py:203-265 | the verdict, the stored pair written only on admission, an unknown key entered with a full bucket, and the counters |
| CostLimiter.RateLimiter.RateLimitHeaders | mcp_paas/utils/rate_limiter.py:163-201 | the three headers for tracked and for untracked keys |
| CostLimiter.RateLimiter.CleanupOldEntries | mcp_paas/utils/rate_limiter.py:132-147 | drops exactly the entries not written for more than a day |
| CostLimiter.EndpointsShareExactly | mcp_paas/utils/rate_limiter.py:157-161 | two endpoints of a tenant share a bucket for some addresses if and only if one is the other followed by a colon and more |
| CostLimiter.AddressesShareExactly | mcp_paas/utils/rate_limiter.py:157-161 | at one endpoint callers share a bucket exactly when they give the same address, an empty one being none |
| CostRuns.StoredFollowsLedger | mcp_paas/utils/rate_limiter.py:224-265 | in every run without evictions, or where they go unnoticed, each stored balance is the one the key's full ledger of grants gives |
| CostGuarantees.StoredPairIsClosedForm | mcp_paas/utils/rate_limiter.py:224-265 | without evictions, or when they go unnoticed, the stored pair always equals the closed form over the whole history of grants |
| CostGuarantees.EveryIntervalWithinBudget | mcp_paas/utils/rate_limiter.py:224-265 | without evictions, or when they go unnoticed, the cost admitted in any interval is at most burst limit plus rate times its length, for any non-negative costs |
| CostGuarantees.SweepsChangeNothing | mcp_paas/utils/rate_limiter.py:132-147 | when a day refills a full bucket, deleting every sweep changes no reply |
| CostGuarantees.EvictionUnnoticedExactly | mcp_paas/utils/rate_limiter.py:132-147 | evicting idle entries changes no reply in any run if and only if burst limit is at most a day's refill |
| CostGuarantees.RetryInstant | mcp_paas/utils/rate_limiter.py:250-257 | a refused cost is next admitted exactly after the untruncated wait, and never if it exceeds the burst limit |
| CostGuarantees.HintIsWithinOneSecond | mcp_paas/utils/rate_limiter.py:251-257 | a retry a second after the truncated hint always succeeds; at the hint itself exactly when the wait is whole or at most a second |
| CostGuarantees.RemainingIsExact | mcp_paas/utils/rate_limiter.py:171-193 | in every run, for a tracked key exactly Remaining unit checks succeed at that instant |
| CostWindows.BurstIsWholePart | mcp_paas/utils/rate_limiter.py:31-34 | the burst limit is the most whole requests not above the window's requests times the multiplier |
| CostWindows.WindowsEarnTheirRequests | mcp_paas/utils/rate_limiter.py:242-245 | any number of windows earns that many times the window's requests |
| CostWindows.AdmittedExactly | mcp_paas/utils/rate_limiter.py:224-265 | in every run, sweeps included, a check is admitted if and only if its cost is at most the burst limit and what it lacks has been earned since the stored instant at the window's requests every window; an untracked key needs the first only |
| CostWindows.SpentBucketEarnsBack | mcp_paas/utils/rate_limiter.py:242-261 | a bucket spent to the last token covers a cost exactly once that cost's share of a window has passed, and the window's requests exactly a window later |
| CostWindows.EveryWindowWithinBudget | mcp_paas/utils/rate_limiter.py:224-265 | without evictions, or when they go unnoticed, any stretch of n windows admits at most the burst limit and n times the window's requests |
| CostWindows.ZeroDivisionExactly | mcp_paas/utils/rate_limiter.py:245-253 | a division by zero answers exactly a window of no length, or a shortage where a window has no requests |
| CostWindows.SweepDropsExactly | mcp_paas/utils/rate_limiter.py:132-147 | a sweep drops exactly the entries written more than 24 hours ago and changes none |
| CostWindows.SweepsMatterExactly | mcp_paas/utils/rate_limiter.py:132-147 | sweeps change no reply, and keep every interval's budget, if and only if burst limit times window seconds is at most 86400 times the window's requests |
| CostEvictions.BudgetHoldsExactly | mcp_paas/utils/rate_limiter.py:132-147 | in runs with evictions the budget of every interval holds if and only if burst limit is at most a day's refill |
| CostEvictions.HintPlusOneAlwaysSucceeds | mcp_paas/utils/rate_limiter.py:251-257 | in any run, whatever is evicted, a retry a second after the hint succeeds when nothing was admitted since and the cost fits the burst limit |
| CostConfigs.CapturedAtBirth | mcp_paas/utils/rate_limiter.py:229-237 | a tracked key has the configuration that was set for its tenant when it was last created |
| CostConfigs.ChangeReachesExactly | mcp_paas/utils/rate_limiter.py:149-155 | a tracked key keeps its configuration until it is evicted, and has a later one if and only if it was |
| CostConfigs.EntryFollowsLife | mcp_paas/utils/rate_limiter.py:224-265 | in every run with sweeps and changes of configuration an entry is what the grants since its creation leave of a full bucket |
| CostConfigs.CapturedBudget | mcp_paas/utils/rate_limiter.py:242-265 | in every such run any interval within one life of a key admits at most the captured burst plus what it refills at the captured rate |
| CostConfigs.CapturedClosedForm | mcp_paas/utils/rate_limiter.py:242-261 | in every such run a tracked balance is the closed form over those grants, under the captured configuration |
| CostGuarantees.UntrackedRemainingIsExactWhen | mcp_paas/utils/rate_limiter.py:195-201 | for an untracked key Remaining is right if and only if the burst limit is the window's limit |
| CostGuarantees.ResetMeansFull | mcp_paas/utils/rate_limiter.py:184-187 | a second after Reset an untouched bucket is full, and before Reset it is not |
| WindowLimiters.MonitorLimiter.CheckRateLimit | server.py:135-160 | one check of the closed window on the tenant's own list |
| WindowLimiters.RegistrationLimiter.CheckRegistration | src/mcp_gateway/api.py:130-141 | one check of five registrations per hour and address |
| WindowLimiters.ActionLimiter.RateLimitCheck | src/mcp/services/auth.py:72-108 | one check on whole seconds; actions without a quota always pass and leave no trace |
| WindowLimiters.Prune | server.py:152-155 | the list comprehension keeps exactly the live stamps, in order |
| WindowLimiters.WindowPromise | server.py:135-160 | for every boundary, no window exceeds the limit and no compliant rival is ever ahead |
| WindowLimiters.CallersAreIndependent | src/mcp_gateway/api.py:135-141 | a caller's stamps and answers depend on its own arrivals only |
| WindowLimiters.WholeSecondsHoldExactly | src/mcp/services/auth.py:89-108 | the quota holds over real windows of a given length in every run if and only if the length is at most the period less one second |
| WindowLimiters.MonitorPassesExactly | server.py:135-160 | in any run over one window a tenant's request passes if and only if fewer than its own limit passed, or than the default without one, or the limit-th latest more than the window ago |
| MixedWindows.PruningUnnoticedExactly | server.py:135-160 | of any list whatever, what one call prunes by its own window leaves another the same live stamps if and only if the other's window begins no earlier |
| MixedWindows.PruningNeverShowsExactly | server.py:135-160 | over a set of windows that each count a stamp made at the same instant, with a clock that does not go back, every run is answered as if nothing were ever pruned if and only if the limit is at most one or the windows are all the same |
| MixedWindows.AdvancingWindowsForgetNothing | server.py:135-160 | when no window begins before an earlier one did, every call is answered as if nothing were pruned |
| MixedWindows.ShortWindowForgets | server.py:135-160 | a run in which a one-second window lets a third request into a minute that admits two |
| Accounts.PermissionsAreTheUnion | services/auth.py:154-164 | a user has a permission exactly when some role of theirs grants it |
| AccountRuns.ApplyKeepsInvariant | services/auth.py:250-358 | every operation keeps both indexes exact, role lists free of duplicates, an active admin and the quota of every tenant |
| AccountRuns.EveryTenantStaysAdministered | services/auth.py:604-619 | in every reachable state each tenant has an active admin and at most its quota of users, active or not |
| AccountRuns.IndexesStayExact | services/auth.py:300-303 | in every reachable state the email and name indexes correspond exactly to users and tenants |
| AccountRuns.RemovedRoleIsGone | services/auth.py:616-619 | removing one occurrence removes the role, and nothing else changes |
| AccountRuns.ReactivationAlwaysHasRoom | services/auth.py:724-732 | the quota refusal inside reactivation never happens in a reachable state |
| AccountAuthority.PermittedExactly | services/auth.py:105-164 | a member may do exactly what one of its roles carries, permission by permission |
| AccountAuthority.CheckedExactly | services/auth.py:623-642 | a check says yes exactly for an active user of an active tenant with a role that carries the permission |
| AccountAuthority.AssignsExactly | services/auth.py:534-570 | succeeds if and only if the actor is an ADMIN of the stored target's tenant; the target has that role as well then, and nothing else changes |
| AccountAuthority.RemovesExactly | services/auth.py:572-621 | succeeds if and only if the actor is an ADMIN of the target's tenant and an ADMIN role leaves an active admin; that role goes and nothing else changes |
| AccountAuthority.DeactivatesExactly | services/auth.py:644-691 | succeeds if and only if the actor is an ADMIN or MANAGER of the target's tenant and an ADMIN target leaves an active admin; the target is inactive then and nothing else changes |
| AccountAuthority.ReactivatesExactly | services/auth.py:693-738 | succeeds if and only if the actor is an ADMIN or MANAGER of the target's tenant and an inactive target finds room; the target is active then and nothing else changes |
| AccountAuthority.EnrolsExactly | services/auth.py:308-358 | a user is registered if and only if the tenant is stored, has nobody under the address and is below its quota; the user is active with the USER role alone, and nobody else changes |
| AccountAuthority.FoundsExactly | services/auth.py:250-306 | a tenant is registered if and only if no stored tenant has the name; it and its one user, an ADMIN, are active, and nobody else changes |
| AccountAuthority.ClosesExactly | services/auth.py:755-777 | an ADMIN of any tenant closes any stored tenant and nobody else closes one: the guard for other tenants' actors never refuses |
| AccountAuthority.StandingIsDecided | services/auth.py:534-738 | in every reachable state a user has a role, or is active, if and only if its registration or an ADMIN (an ADMIN or MANAGER, for activity) of its tenant gave it and no such actor has taken it since |
| AccountAuthority.PlanDecidesRoom | services/auth.py:276-338 | in every reachable state a tenant has at most 25, 100 or 10 users by its plan, and a new address is refused for room exactly at that number |
| AccountIsolation.RecordsMeetOnlyInNames | services/auth.py:263-306 | a tenant's user records equal those of the run without other tenants' operations if and only if its registration was not refused for a taken name |
| AccountIsolation.ANameCanBeTaken | services/auth.py:263-266 | two tenants asking for one name is such a run |
| AccountClosure.AnswersMeetInForeignCloses | services/auth.py:755-772 | for a tenant whose registration was not refused, every permission check on its users is answered as without other tenants' operations if and only if no ADMIN of another tenant closed it or a member of its own did too |
| AccountClosure.StepCloses | services/auth.py:755-772 | one step closes a tenant exactly by one of the two guards, and none opens it again |
| AccountClosure.AnotherAdminCloses | services/auth.py:766-772 | the three-step run in which another tenant's admin closes this one and the answers differ |
| AccountClosure.CloseDeactivatesNobody | services/auth.py:740-777 | after a successful close the users are as before, all inactive exactly if they were before, which in a reachable state they never are |
| AccountClosure.ClosedForGood | services/auth.py:634-642 | once a tenant is closed every later check on any of its users answers no, over any continuation of modelled operations, `reactivate_tenant` not being one |
| AccountClosure.ClosedAdminStaysActive | services/auth.py:740-777 | the run that shows it: the closing admin is still active, and may do nothing |
| AccountService.User.HasPermission | services/auth.py:154-164 | the loop over roles computes exactly the union |
| AccountService.AuthService.RegisterTenant | services/auth.py:250-306 | the new directory: tenant, admin and both index entries, or a refusal for a taken name |
| AccountService.AuthService.RegisterUser | services/auth.py:308-358 | the new directory, or the first refusal that applies |
| AccountService.AuthService.AssignRole | services/auth.py:534-570 | adds the role once, behind the permission, existence and tenant guards |
| AccountService.AuthService.RemoveRole | services/auth.py:572-621 | removes one occurrence, behind the guards and the last-admin guard |
| AccountService.AuthService.DeactivateUser | services/auth.py:644-691 | clears the flag, behind the guards and the last-admin guard |
| AccountService.AuthService.ReactivateUser | services/auth.py:693-738 | sets the flag, behind the guards and the count of active users |
| AccountService.AuthService.DeactivateTenant | services/auth.py:740-777 | marks the tenant and touches no user |
| AccountService.AuthService.CheckPermission | services/auth.py:623-642 | true exactly for an active user of an active tenant with the permission |
| AccountService.AuthService.CountAdmins | services/auth.py:607-610 | the counting loop gives the size of the set of active admins |
| LruLoader.ModelLoader.LoadModel | mcp_paas/models/loader.py:160-272 | every outcome and the table it leaves: answered from the table, unknown, unknown version, memory, missing path, loaded |
| LruLoader.ModelLoader.UnloadModel | mcp_paas/models/loader.py:274-333 | takes the model out of both tables and says whether it was there |
| LruLoader.ModelLoader.CleanupLeastUsedModels | mcp_paas/models/loader.py:541-570 | removes the given number of longest unused models, as far as there are any, and returns how many that was |
| LruLoader.SortedByTime | mcp_paas/models/loader.py:555-559 | every model once, longest unused first |
| LruRuns.HoldsMostRecent | mcp_paas/models/loader.py:178-263 | after any run of loads the table is the most recently requested distinct models, in order of access |
| LruRuns.LoadedAreMostRecent | mcp_paas/models/loader.py:178-263 | the loaded models are exactly the bound's worth of most recent distinct ids, one at least |
| LruRuns.LargerHoldsMore | mcp_paas/models/loader.py:204-206 | a larger bound always holds a superset |
| LruRuns.LargerMissesNoMore | mcp_paas/models/loader.py:204-206 | a larger bound never misses more |
| LruFailures.FailedLoadLeavesTableExactly | mcp_paas/models/loader.py:178-226 | a load that fails leaves the table unchanged if and only if no other version was loaded and, where the version resolved, the table was empty or had room by number and memory |
| LruFailures.FailedLoadLoses | mcp_paas/models/loader.py:190-226 | exactly how many models a failed load takes out |
| LruFailures.FailedUpgradeDropsCopy | mcp_paas/models/loader.py:190-222 | the two-load run from the empty table in which an upgrade whose artifact is missing takes the working version along |
| LruFailures.LoadSucceedsExactly | mcp_paas/models/loader.py:180-254 | a load succeeds if and only if it is answered from the table, or the catalog names a version, memory suffices at one of the readings and the artifact is there; the table then has that version, asked for now |
| LruFailures.RefusalTells | mcp_paas/models/loader.py:196-254 | which error a failed load raises, each if and only if: no model, no such version, no memory, no artifact |
| VersionLoader.ModelLoader.LoadModel | mcp_paas/models/loader.py:1367-1448 | every outcome and the three tables it leaves |
| VersionLoader.ModelLoader.UnloadModelVersion | mcp_paas/models/loader.py:1470-1501 | the three tables after one version goes, also when its hook raises halfway |
| VersionLoader.ModelLoader.UnloadModel | mcp_paas/models/loader.py:1503-1527 | the three tables after all versions go, up to the first hook that raises |
| VersionLoader.ModelLoader.SwitchModelVersion | mcp_paas/models/loader.py:1572-1608 | loads if needed and makes the version active, or leaves it alone |
| VersionLoader.ModelLoader.GetActiveModel | mcp_paas/models/loader.py:1540-1570 | on any tables: the latest version is loaded when none is active, the active one is loaded again when it is not among the loaded, and otherwise it is returned with its metrics |
| VersionLoader.LoadKeepsSound | mcp_paas/models/loader.py:1403-1441 | loading keeps the active version loaded and the three tables about the same models and versions |
| VersionLoader.SwitchKeepsSound | mcp_paas/models/loader.py:1588-1603 | so does switching, which ends with that version active |
| VersionLoader.UnloadVersionSoundExactly | mcp_paas/models/loader.py:1470-1501 | unloading a version keeps the tables sound if and only if its cleanup hook does not raise |
| VersionLoader.UnloadAllSoundExactly | mcp_paas/models/loader.py:1503-1522 | unloading a model keeps them sound if and only if none of its hooks raises |
| VersionLoader.RunStaysSound | mcp_paas/models/loader.py:1300-1608 | every reachable state is sound when no hook raises |
| VersionLoader.NextActive | mcp_paas/models/loader.py:1476-1498 | in every reachable state the earliest loaded other version succeeds the active one, and the last version takes the model along |
| VersionLoader.FailedLoadLeavesTablesExactly | mcp_paas/models/loader.py:1387-1448 | a load that fails leaves the tables unchanged if and only if the version does not resolve, is already loaded, or does not come up |
| VersionLoader.InvalidModelStays | mcp_paas/models/loader.py:1425-1448 | the load that shows it: the caller is told of an error and the invalid model is loaded and active |
| VersionOutcomes.LoadsExactly | mcp_paas/models/loader.py:1367-1448 | on sound tables a load of a named version succeeds if and only if it is loaded already, or comes up and is valid; it answers with that version's instance, used now, and leaves another active version active |
| VersionOutcomes.SwitchesExactly | mcp_paas/models/loader.py:1586-1608 | a switch succeeds if and only if the registry has the version and it is loaded, or known, comes up and is valid; that version is active then, and a switch to a loaded version changes nothing else |
| VersionOutcomes.AnswersExactly | mcp_paas/models/loader.py:1540-1570 | on sound tables the active version's instance is returned and nothing changes; without an active version the latest is loaded, successfully if and only if it is known, comes up and is valid |
| VersionOutcomes.UnloadsExactly | mcp_paas/models/loader.py:1470-1501 | on sound tables unloading a version succeeds if and only if it is loaded and its hook does not raise; that version alone goes |
| VersionOutcomes.UnloadsAllExactly | mcp_paas/models/loader.py:1503-1527 | unloading a model succeeds if and only if it is loaded and no hook raises; no table names it then |
| VersionUnloads.SoundIsNeverAstray | mcp_paas/models/loader.py:1559-1570 | on sound tables the active version is returned at once and the reloading branch is not taken |
| VersionUnloads.SingleUnloadNeverStrays | mcp_paas/models/loader.py:1470-1501 | from sound tables, unloading one version never leaves the active one unloaded, whether its hook raises or not |
| VersionUnloads.CutShortStraysExactly | mcp_paas/models/loader.py:1503-1527 | from sound tables, unloading all versions leaves the active one unloaded if and only if a hook raises at the active version's position or behind it |
| VersionUnloads.AstrayExactlyMidUnload | mcp_paas/models/loader.py:1505-1519 | with hooks that suspend, asking for the active model reaches the reloading branch if and only if an unload of all versions is under way and has popped the active one |
| VersionUnloads.AstrayBetweenPops | mcp_paas/models/loader.py:1505-1509 | the four-step run that shows it: two loads, and an unload of all versions between its two pops |
| VersionUnloads.AstrayExactly | mcp_paas/models/loader.py:1503-1564 | in every run, raising hooks included, asking for the active model reaches the reloading branch if and only if some unload of all versions popped the active one and no step since stored it, switched successfully or completed such an unload |
| VersionUnloads.ReloadHeals | mcp_paas/models/loader.py:1559-1564 | a reload that succeeds puts the active version back among the loaded and returns it |
| VersionUnloads.StepsAreUnloadAll | mcp_paas/models/loader.py:1503-1527 | popped one by one up to the first hook that raises, an unload amounts to the one-step operation |
| VersionUnloads.StepsAreUnloadVersion | mcp_paas/models/loader.py:1470-1501 | begun, and then ended or cut short by its hook, the unload of one version amounts to the one-step operation |
| ContextReaper.ContextManager.CreateContext | services/context_manager.py:513-600 | the state and outcome of a creation: exhausted, done, or failed on a tenant without metadata |
| ContextReaper.ContextManager.CheckResourceLimits | services/context_manager.py:851-899 | gives a new tenant its counters and answers from the table's size and the memory counter |
| ContextReaper.ContextManager.UpdateTenantResources | services/context_manager.py:906-949 | adds to, or takes from and clamps, both counters |
| ContextReaper.ContextManager.GetContext | services/context_manager.py:602-653 | refreshes exactly the context asked for |
| ContextReaper.ContextManager.DeleteContext | services/context_manager.py:655-710 | removes the context and its metadata and releases it, or names what is missing |
| ContextReaper.ContextManager.ScanExpired | services/context_manager.py:1001-1014 | lists exactly the contexts idle for more than an hour, once each |
| ContextReaper.ContextManager.ReapContext | services/context_manager.py:1016-1045 | removes and releases a listed context if it is still there |
| ContextReaper.EveryRunKeepsAccount | services/context_manager.py:541-587 | under any interleaving of creations, lookups, deletions, scans and reaps: equal keys, counters equal to the size and a hundred times it, both in bounds, each context released exactly once |
| ContextReaper.CreationRefusedExactly | services/context_manager.py:866-894 | in every reachable state a creation is refused exactly at ten contexts: the memory limit is never the reason |
| ContextReaper.ClampsNeverBind | services/context_manager.py:938-944 | in every reachable state a removal takes exactly one share from each counter |
| ContextReaper.NeverFails | services/context_manager.py:549-566 | in every reachable state no creation or lookup fails for missing metadata |
| ContextReaper.LookupTells | services/context_manager.py:620-690 | in every reachable state a look-up or deletion finds a context if and only if it was created and not released since, and otherwise tells whether its tenant ever had one |
| ContextReaper.RecordFollowsRun | services/context_manager.py:541-653 | under any interleaving a live context has the model it was created with, and its metadata tell that, when it was created, and when it was last looked up |
| ContextReaper.FoundStaysIdleExactly | services/context_manager.py:1007-1040 | a context found by the scan is still idle at the instant of the reap if and only if nobody has looked it up since the scan within the hour before that instant; it is removed either way |
| ContextReaper.RefreshedContextIsReaped | services/context_manager.py:1007-1040 | the run that shows it: looked up after the scan, no longer idle, and reaped |
| ContextReaper.RefreshedContextGrowsIdleAgain | services/context_manager.py:1007-1040 | the run that shows why the hour matters: looked up after the scan, and idle again when a late reap comes |
| ContextTable.ContextManager.CreateContext | mcp_paas/services/context_manager.py:50-75 | enters the context under its id and at the end of its tenant's list |
| ContextTable.ContextManager.FinishInitialization | mcp_paas/services/context_manager.py:82-101 | the end of a load sets the status and stores the held object again, present or not |
| ContextTable.ContextManager.GetTenantContexts | mcp_paas/services/context_manager.py:125-126 | the listed ids that are stored, in list order, as their objects |
| ContextTable.ContextManager.DeleteContext | mcp_paas/services/context_manager.py:138-150 | takes the context out of the table and one occurrence out of its tenant's list, and says whether it was there |
| ContextTable.ContextManager.CleanupExpiredContexts | mcp_paas/services/context_manager.py:189-209 | undisturbed, deletes and counts the expired contexts, and leaves exactly those without a time to live or with one that has not run out before now |
| ContextTableRuns.ListingIsExact | mcp_paas/services/context_manager.py:125-126 | under any interleaving a tenant is listed exactly the contexts created for it and not yet deleted, once each, in creation order |
| ContextTableRuns.FoundExactly | mcp_paas/services/context_manager.py:103-113 | a context is found by id if and only if its creation or the end of its load comes after every deletion of it |
| ContextTableRuns.RecordFollowsRun | mcp_paas/services/context_manager.py:50-101 | under any interleaving a stored record has the tenant and time to live of its creation, and the status says exactly how its load ended, if it has |
| ContextTableRuns.DeletionIsFinalExactly | mcp_paas/services/context_manager.py:82-101 | a deleted context can be found again in some continuation if and only if its load was under way |
| ContextTableRuns.DeletedContextComesBack | mcp_paas/services/context_manager.py:82-101 | the run that shows it: deleted while loading, found by id again, and not listed |
| Registry.GatewayRegistry.MarkHealth | src/mcp_gateway/registry.py:65-69 | changes the health of that row only |
| Registry.GatewayRegistry.ListServers | src/mcp_gateway/registry.py:77-85 | exactly the tenant's rows, or all, strictly in id order |
| Registry.GatewayRegistry.PickServer | src/mcp_gateway/registry.py:87-120 | a server exactly when the tenant has a row, healthy if asked for, then one of them: the preferred one if eligible, otherwise the lowest priority number and then the first id under failover, the first id where a preference was to decide, and the weighted choice for some draw of the range |
| Registry.Walk | src/mcp_gateway/registry.py:110-117 | the accumulating loop always returns the server in whose share the draw falls |
| Registry.TextOrderExactly | src/mcp_gateway/registry.py:77-85 | ids come in the order of texts: a text before its continuations, and otherwise by the first character that differs |
| Registry.ListingIsComplete | src/mcp_gateway/registry.py:77-96 | every row of the tenant, or of all, and if asked for only the healthy, is listed exactly once, in that order |
| Registry.ChoiceIsEligible | src/mcp_gateway/registry.py:94-120 | a server is chosen exactly when an eligible one exists, is one of them, is the preferred one if that is eligible, and otherwise under failover has the lowest priority number and among equals the first id, and the first id where a preference was to decide |
| Registry.WeightedIsProportional | src/mcp_gateway/registry.py:110-117 | without an eligible preferred server, each eligible server is chosen by exactly its weight of all draws, one at least |
| Registry.UnchosenHealthIsIrrelevant | src/mcp_gateway/registry.py:95-120 | marking a server unhealthy changes a choice without a draw if and only if it was the chosen one |
| Registry.ChoiceIsDetermined | src/mcp_gateway/registry.py:87-120 | the choice is determined by the rows and the draw |
| Registry.RowsFollowHistory | src/mcp_gateway/registry.py:35-69 | after any history of registrations and health marks a row exists exactly for what was registered, under its own id, with weight at least one, the first registration's time, the health last said of it, and the last registration's other fields |
| Policy.PolicyEngine.constructor | src/mcp_gateway/policy.py:50-60 | the initial rules are put one after the other |
| Policy.PolicyEngine.AddRule | src/mcp_gateway/policy.py:62-80 | replaces in place or appends |
| Policy.PolicyEngine.RemoveRule | src/mcp_gateway/policy.py:82-83 | removes the rule of that name |
| Policy.PolicyEngine.Decide | src/mcp_gateway/policy.py:101-110 | the loop returns the first match, or the default |
| Policy.PolicyEngine.IsAllowed | src/mcp_gateway/policy.py:112-113 | true exactly when the decision is to allow |
| Policy.TableFollowsHistory | src/mcp_gateway/policy.py:62-99 | after any history of upserts and removals the table holds each name's latest rule, in order of arrival |
| Policy.DecisionFollowsHistory | src/mcp_gateway/policy.py:101-110 | a request is decided by the oldest arrival among the latest rules that match, as it now reads, and by the default exactly when none does |
| Policy.LaterChangesDoNotMatter | src/mcp_gateway/policy.py:62-110 | changes to later rules, additions included, never change a request already matched |
| Policy.ReplacementKeepsPrecedence | src/mcp_gateway/policy.py:67-71 | a replaced rule still decides the requests it decided, as long as it matches them |
| Policy.OutOfScopeDecidesNothing | src/mcp_gateway/policy.py:27-37 | a rule that lists neither the request's action nor the asterisk, or neither its resource nor the asterisk, or tenants of which the request's is none, changes no evaluation wherever it stands |
| Policy.InScopeDecides | src/mcp_gateway/policy.py:27-37 | a rule that lists them, for any tenant or the request's, decides wherever no earlier rule does |
| Routing.Gateway.RouteDryRun | src/mcp_gateway/api.py:521-600 | the plan for a named or a picked server, with its reason, and the audit entry |
| Routing.Gateway.RouteExecute | src/mcp_gateway/api.py:603-707 | the status, whether the transport is called, and the audit entry |
| Routing.PickedPlanIsExecution | src/mcp_gateway/api.py:560-645 | for a picked server plan and execution agree under every rule store, and there is no server exactly when none is eligible |
| Routing.PlanAgreesExactly | src/mcp_gateway/api.py:527-645 | for a named server they agree under every rule store if and only if it is healthy and of the request's own tenant |
| Routing.PlanTells | src/mcp_gateway/api.py:527-600 | a plan's reason is, each if and only if: not registered, not healthy, no server, or the policy's word, which alone can allow; it tells the server and its health |
| Routing.ExecutionTells | src/mcp_gateway/api.py:603-707 | an execution is unknown exactly for an unregistered server, denied only by the policy, and fails only with no adapter or a failed call |
| Routing.GrantReachesExactly | src/mcp_gateway/api.py:560-645 | under one grant an execution goes through exactly for its action, on its server, when that is its tenant's, and a plan exactly when its tenant asks |
| CodeMode.CodeModeToolHandler.HandleExecute | src/mcp_gateway/codemode_tools.py:77-131 | refused, kept for approval, or run, with the event each leaves; a result that is not JSON raises after the run and leaves none |
| CodeMode.CodeModeToolHandler.ApproveAndExecute | src/mcp_gateway/codemode_tools.py:133-154 | runs exactly pending events with the recorded code and tenant and completes them unless the result is not JSON |
| CodeMode.TableFollowsHistory | src/mcp_gateway/audit.py:50-93 | after any history of entries and updates an event is there exactly if it was logged, as logged but for the status and result last given to it |
| CodeMode.EverythingAsSubmitted | src/mcp_gateway/codemode_tools.py:86-154 | whatever runs carries the code and tenant first submitted and was not denied |
| CodeMode.StatusOnlyCompletes | src/mcp_gateway/audit.py:83-93 | over any continuation an event stays as it is or goes from pending to completed |
| CodeMode.AtMostOnce | src/mcp_gateway/codemode_tools.py:133-154 | with JSON results every submission runs at most once, and not while pending |
| CodeMode.RunsTwiceExactly | src/mcp_gateway/codemode_tools.py:145-151 | a submission runs more than once if and only if it is approved again after an approval that raised |
| CodeMode.RaisedThenApprovedRunsTwice | src/mcp_gateway/codemode_tools.py:145-151 | the run that shows it |
| CodeMode.AsksApprovalExactly | src/mcp_gateway/codemode_tools.py:106-107 | a rule asks for approval if and only if its name has the word in it, each letter small or large |
| CodeMode.WaitsExactly | src/mcp_gateway/codemode_tools.py:93-118 | a submission is refused if and only if the policy denies it, and waits if and only if the policy allows it by a rule whose name has that word in it |
| CodeMode.GrantAdmitsExactly | src/mcp_gateway/codemode_tools.py:86-103 | under one grant a submission is let through exactly to execute code on its server for its tenant |
| CodeMode.RecordFollowsRun | src/mcp_gateway/codemode_tools.py:86-154 | in every run a submission has a record unless its own run raised, and the record tells who asked for what, what the policy said, and what the run, or the approval that completed it, came back with |

## Left out

* The Redis path of the strategy-based limiter (utils/rate_limiter.py:468-609): a foreign store and a non-atomic sequence of calls.
* Passwords, tokens and their expiry (services/auth.py:360-532, mcp_paas/services/auth.py): foreign calls.
* The in-flight counter of server.py:246-312 and the resource endpoints around it: one counter up and down, an easy member.
* Floating-point rounding: reals stand for floats.
* Threads inside a lock, clocks that go back, SQLite itself, HTTP routing, scopes, metrics and logging.
* Idle unloading, health checks and version switching of the LRU loader (mcp_paas/models/loader.py:357-516, 572-638), and its metrics.
* Resource usage figures of a context (mcp_paas/services/context_manager.py:152-187) and the concurrency check over the listing (211-231): easy members.
* Inference, cleanup hooks and listings of services/context_manager.py: foreign or read-only.
* `handle_search` (src/mcp_gateway/codemode_tools.py:56-75): read-only, logs a completed event.
- LruRuns.HoldsMostRecent: is about loads of available models with memory to spare and distinct, increasing access times, as the least recently used order means nothing otherwise; LruLoader.ModelLoader.LoadModel covers the other outcomes one call at a time.
- UsageGuarantees.RunAdmitsOptimally: needs one clock reading per check, because a check that decides at one instant and records a later one has no single arrival time.
- CostGuarantees.RetryInstant: is about fixed configurations, and runs without evictions or configurations where they go unnoticed, since an eviction in between refills the bucket early; CostEvictions.HintPlusOneAlwaysSucceeds covers all runs.
- AccountService.AuthService.RegisterTenant: user and tenant records carry no profile fields, password hashes or resource labels.
- AccountClosure.ClosedForGood: is about continuations without `reactivate_tenant` (services/auth.py:779-808), which is documented to reopen a tenant; its text breaks off before any write, so it is not modelled.
- ContextReaper.ContextManager.CreateContext: context metadata are values rather than shared records, and the release of resources is a recorded event.
