# Whois Watcher, modelled and proved in Dafny

Whois Watcher is a domain monitor: it looks up WHOIS, DNS, SSL, e-mail and subdomain data of domains, compares each
answer with a cached row, tells subscribers what changed, and decides when to look again. This project models the parts
of it that branch, recurse or keep state, and proves what they promise over all inputs and all runs. Where the code does
not keep a promise, the project keeps the code, shows the inputs, and proves exactly when the promise holds.

Verify everything with `dafny verify dfyconfig.toml`. Libraries, the network, clocks and the database are parameters:
arbitrary functions, arbitrary fetch results, arbitrary interleavings.

## How the modules fit together

- **Recursive SPF expansion.** `SpfRecord` reads a record exactly as the two regular expressions and the token loop do;
  `SpfText` says of the characters of a text what that comes to.
  `SpfUnfold` defines, independently of the code, the preorder unfolding of an arbitrary graph of include and redirect
  edges that is cut where a name repeats on its own path. `SpfReach` proves what such an unfolding means (reachability,
  simple paths, independence of the depth). `Spf` holds the recursive code and proves it against the unfolding.
- **Timed locks.** `TimedLock` is a state machine of workers, a clock and one Redis key with an expiry, for the three
  shapes of lock in the tasks; a delete takes time to arrive.
- **Check tasks.** `DnsCheck`, `SslCheck`, `EmailCheck`, `WhoisCheck` and `Subdomains` model one check each: a class with
  the cached row (and the job queue) as fields. `DnsRuns`, `WhoisRuns` and the second halves of the others prove facts
  over whole runs. `FlagMachine` holds what all stored flags with notices have in common, `FanOut` the loops that
  turn changes into jobs for subscribers. `WhoisNotices` makes the notices of a WHOIS check. `CheckChain` is the chain
  of checks that the adaptive interval produces.
- **Sending.** `Reminders` splits `send_expiry_reminder` into read, send and record, with arbitrary interleaving.
  `ProblemNotices` does so with `send_problem_notice`, over real time, beside the task as one method; `ProblemRuns` puts
  it behind the checks that enqueue its jobs.
- **Parsers and loops.** `WhoisText` is the one-pass WHOIS parser as a loop over classified lines, `WhoisParser` its
  vocabulary and its reading of single values, `WhoisAnswer` the whole parser on text. `WhoisLines` says of the characters
  of a line what its class, key and value are. `FrontmatterValues` and `Frontmatter` print and parse task files, `TaskText`
  says of a text what that comes to. `BulkImport` is the loop over a file of names, `ImportedFile` the whole file, with
  the result said of its lines.
- **Verdicts.** `FreeVerdict` is the chain of decisions behind "this domain is free". `Freshness` says how old the data
  are that a command shows from the cache.
- `Sequences`, `Selections`, `Permutations`, `Text`, `Lines` and `Sorting` are shared vocabulary.

## Where the code and its documentation part

- A failed DNS resolve announces `ns_mismatch_resolved` while the stored flag stays up, and does so again with every
  further failure. A first check without a row stores a mismatch that it does not announce.
  `DnsRuns.FlagFollowsNoticesIff`, `PhantomsRepeat` and `MismatchAlternatesIff` say exactly when.
- A mismatch is documented to be watched every half hour; a failed resolve during one puts the next check off by up to a
  day (`DnsRuns.MismatchIsWatchedIff`).
- The first DNS check is documented to be silent, and to be no mismatch transition. Over the scheduler's bootstrap row,
  which is the normal start, it announces a mismatch it finds (`DnsRuns.FirstCheckAnnouncesMismatch`); and after a failed
  first check, the first success announces records and reachability. `DnsRuns.FirstSuccessIsSilentIff` has the exact
  condition.
- An e-mail check with an empty selector list is stored as `[]` and restored as absent, so every later check reports a
  change (`EmailCheck.StoreRestoreIsQuietIff`, `EmptySelectorsAlwaysReported`). The parser delivers such a list for every
  domain without known selectors.
- A failed e-mail check never lowers the reachability flag, although the comments rely on it: `became_reachable` is never
  sent, and `became_unreachable` is sent by every failure after a first success, except when the domain does not exist
  (`EmailCheck.ReachabilityNotices`).
- The table of SSL intervals does not mention the last day of a certificate; the code checks it less often than the week
  before (`SslCheck.UrgencyGrowsIff`).
- `check_dns_report` deletes its lock even when it did not get it, so three workers break exclusion
  (`TimedLock.RejectedWorkerOpensTheDoor`).
- A lock that is deleted at the end of a check lives exactly as long as a job may run. That excludes two workers only if
  a delete sent on cancellation takes no time: one that arrives after the key expired removes the key of the next worker
  (`TimedLock.LateDeleteHitsAnother`). The locks that nobody deletes are safe (`LocksInUse`).
- The documentation of the reminder task says that two workers never send one reminder twice. The unique index keeps the
  journal clean, not the mailbox (`Reminders.OverlappingReadsSendTwice`, `CrashBeforeRecordSendsTwice`).
  `Reminders.SentOnceIff` says over which runs the promise holds, `NeverSentAgainIff` from which moment on it does.
- `problem_notify_cooldown_days` is the least time between two problem notices. `check_domain` compares it with the age of
  the last success, which alone would not keep the promise (`ProblemRuns.JobsKeepCooldownIff`); `send_problem_notice`
  compares it with the last notice, which does where jobs run one after another (`ProblemRuns.NoticesKeepCooldown`). The
  task reads, sends and marks in separate steps, though. `ProblemNotices.CooldownIsKeptIff` says over which interleavings
  the promise holds, `OverlapBreaksCooldown` and `LostMarkBreaksCooldown` show two over which it does not. The mark is
  the time a job started, so that deliveries may come closer than the cooldown by the time a job may take
  (`OrderlyRunsKeepCooldown`, `SlowJobShortensCooldown`).
- `whois_cache_fresh_hours` is described as the time for which cached data count as fresh. A failed check renews it:
  where a check failed after the last answer, and that answer is of a registered domain, there is a moment at which data
  older than that are shown without the mark for stale data; otherwise there is none (`Freshness.UnmarkedIsFreshIff`,
  `OutagePassesOffOldData`).
- A registrant who changes from one named owner to another in the same check in which the privacy flag flips is announced
  twice, word for word (`WhoisNotices.ToldTwiceIff`).
- The wishlist is promised a notice when a registered domain becomes free; it comes only when the row had an expiry date
  or a registrar (`WhoisRuns.ReleaseIsToldIff`).
- A comment files three keys under organization, the DENIC key `registrant holder` among them; the code files those
  without a blank there, and this one under name (`WhoisParser.IsOrganizationIff`).
- The reader of task files joins the lines of a body with line feeds, so that a body with any other line break, a form
  feed or U+2028 for example, comes back changed (`Frontmatter.RoundTripIff`).
- The limit of section 4.6.4 of RFC 7208 counts every mechanism that needs a DNS query. This code counts include and
  redirect edges only, and that is what is proved.

## Assumptions

- Repositories do what their code in `src/db/repositories` says: an upsert writes the given fields only; `update_fail`
  only updates an existing row, except for subdomains, where it is an upsert; no data field changes on a failure, but
  for WHOIS the time of the fetch does.
- The job runner cancels a job at its timeout (60 s) at the latest, and a job takes its lock strictly after its start.
  How long a delete may be under way after that is a parameter of the lock model.
- Lower-casing and word characters are those of ASCII. Comparing sorted lists is comparing multisets.
- A change is announced when its job is enqueued. The send tasks look at the subscription and the user again, which can
  only drop a notice. Reminders and problem notices remember earlier ones, and a wishlist notice ends its wish; the
  others remember nothing.
- Oracles are deterministic within one call; the RDAP server may answer differently the second time.

## Model

| member | source | states |
|---|---|---|
| SpfRecord.ExtractIncludesAndRedirect | src/email_intel/spf_resolver.py:28-43 | the loop collects the dot-stripped, lower-cased, non-empty groups of all include matches in order, and the redirect is the first redirect match unless stripping leaves nothing |
| SpfRecord.CollectTerminals | src/email_intel/spf_resolver.py:132-145 | the token loop keeps the terminal tokens, in order; `SpfText.ParseRecordSays` says which runs of the text those are |
| SpfRecord.ExtractedTargetsAreClean | src/email_intel/spf_resolver.py:30-41 | no record, however malformed, yields a target that is empty or ends in a dot or a blank |
| SpfRecord.CleanTargetsNormalize | src/email_intel/spf_resolver.py:51-65 | such a target always has a name, so the answer that resets the counter cannot occur below the root |
| SpfRecord.QualifiedIncludeIsFollowedAndKept | src/email_intel/spf_resolver.py:24-32 | an include written with a qualifier is followed like any other and also stays in the list of sources |
| SpfText.ParseRecordSays | src/email_intel/spf_resolver.py:28-145 | the sources of a record are, in text order, those maximal blank-free runs of its text that neither begin with `v=spf1`, nor with one of the three modifiers in any letter case, nor are one of the four forms of `all` in any letter case; its includes are, in text order, the non-empty cleaned groups of a leftmost scan for `include:` in any letter case, its redirect the first such group; includes are followed before the redirect |
| SpfText.IsTerminalIff | src/email_intel/spf_resolver.py:136-145 | the test of the token loop is: no version, no modifier, no form of `all`, letter case aside |
| SpfText.TargetOfIs | src/email_intel/spf_resolver.py:30-41 | a group is a target iff something other than dots is left of it, and then it is the group in lower case without final dots |
| SpfText.TerminalIff | src/email_intel/spf_resolver.py:132-145 | a text is a source of a record iff it is one of its runs and passes that test |
| SpfText.IsSpfRecordIff | src/email_intel/spf_resolver.py:46-48 | a text is a record iff behind outer blanks it begins with `v=spf1` and a blank, and something follows |
| Spf.PickRecordIff | src/email_intel/spf_resolver.py:116-128 | the record of a name is the first of its TXT texts that is one |
| Spf.NameOfIs | src/email_intel/spf_resolver.py:51-65 | a target is named by the strict normalisation, else by the punycode of its stem (no outer blanks, lower case, no final dots), else by the stem, else not at all |
| SpfReach.UnfoldSound | src/email_intel/spf_resolver.py:101-106 | every node of the unfolding is reachable from the root and shows its own record |
| SpfReach.UnfoldComplete | src/email_intel/spf_resolver.py:101-106 | although the visited set is path-local, the end of every repetition-free path that fits the depth is expanded |
| SpfReach.LongPathManyNodes | src/email_intel/spf_resolver.py:112-114 | a path that outruns the depth leaves at least one node on every level, so a small unfolding misses nothing |
| SpfReach.UnfoldStable | src/email_intel/spf_resolver.py:68-195 | the first d nodes of the unfolding are the same at depth d and at every greater depth, cyclic or endless graphs included |
| SpfReach.SmallUnfoldingIsWhole | src/email_intel/spf_resolver.py:68-195 | an unfolding with fewer nodes than its depth is the whole tree |
| SpfReach.SummaryIsComplete | src/email_intel/spf_resolver.py:132-181 | when the limit is not exceeded, every terminal of every reachable record is among the sources |
| SpfUnfold.SummaryAppend | src/email_intel/spf_resolver.py:155-165 | summaries of siblings compose when the second gets the nodes the first has left |
| SpfUnfold.SummaryStop | src/email_intel/spf_resolver.py:152-154 | once the budget is spent any further edge only raises the flag |
| Spf.Dedup | src/email_intel/spf_resolver.py:183-189 | the loop with a seen set keeps first occurrences |
| Sequences.FirstOccurrencesInOrder | src/email_intel/spf_resolver.py:183-189 | of two elements that are kept, the one that is kept first occurs before the other does |
| Spf.ResolveSpf | src/email_intel/spf_resolver.py:68-195 | terminates on every oracle; started at any counter it returns the duplicate-free terminals, counter, flag and TXT queries of the part of the unfolding the budget covers |
| Spf.Query | src/email_intel/spf_resolver.py:116-132 | one TXT query is made for a new name; an error, no answer and no SPF text all end the branch, anything else is expanded |
| Spf.FollowIncludes | src/email_intel/spf_resolver.py:150-165 | the include loop with its two breaks accounts for all targets of the record, reached or not |
| Spf.FollowRedirect | src/email_intel/spf_resolver.py:167-181 | the redirect comes after all includes and only while the limit is not known to be exceeded |
| Spf.WorldIsFaithful | src/email_intel/spf_resolver.py:92-99 | whatever the libraries raise, extracted targets resolve to a name |
| Spf.Resolve | src/email_intel/spf_resolver.py:68-195 | with E edges in the cycle-cut unfolding: the count is min(10, E), the flag holds iff E > 10, the sources are one first-occurrence dedup of the raw terminals in preorder of the first eleven nodes, at most 1 + count queries; sources are sound always, and when not cut they are complete and the unfolding is finite; no source is a version, a modifier or a form of `all`, and each is written, as a run of its own, in the first SPF text of a name that is reached; when not cut, every such run that names a source is a source |
| TimedLock.RunKeepsOwnership | src/tasks/check_dns.py:85-95 | in every interleaving of a lock that lives long enough, whoever is in the body or has a delete under way owns a key that outlives it |
| TimedLock.DeleteRemovesOwnKey | src/tasks/check_dns.py:94-95 | a delete that takes effect, cleanup time included, finds the worker's own, unexpired key |
| TimedLock.RejectedWorkerOpensTheDoor | src/tasks/check_dns_report.py:48-103 | for every lifetime and timeout, three workers put two into the body when everybody deletes |
| TimedLock.KeyExpiresUnderItsOwner | src/tasks/arq_config.py:334 | a timeout above the lifetime lets a second worker in while the first is still running |
| TimedLock.LateDeleteHitsAnother | src/tasks/check_dns.py:91-95 | timeout and cleanup together above the lifetime: a delete that arrives late removes the key of a second worker, and a third walks in |
| TimedLock.SafeIff | src/tasks/check_dns.py:85-95 | exclusion over all runs holds iff only owners delete and timeout plus cleanup is at most the lifetime, or nobody deletes and the timeout is at most the lifetime |
| TimedLock.LocksInUse | src/tasks/arq_config.py:334 | with the constants in use: the locks that checks delete exclude iff deletes take no time, those of `check_subdomains` and `check_email_deep` do, the DNS report's never does |
| FlagMachine.AlternatesIff | src/tasks/check_dns.py:130-141 | notices about a stored flag alternate iff nothing is announced after a notice that the store did not follow |
| FlagMachine.FirstNoticeIsFalse | src/ssl/diff.py:60-94 | where the flag starts undecided or up, the first notice is that it fell |
| FanOut.Enqueue | src/tasks/check_dns.py:260-272 | the nested loops append, subscriber by subscriber, the jobs of the changes the subscriber wants |
| FanOut.JobsAreWanted | src/tasks/check_ssl.py:211-222 | a job is among them iff its change is listed and its user is a subscriber who wants it |
| FanOut.JobsAreInOrder | src/tasks/check_dns.py:260-272 | the jobs are those of all pairs of a subscriber and a wanted change, each pair once, ordered by subscriber and then by change |
| DnsCheck.ComputeDiff | src/dns_monitor/diff.py:82-154 | the flags set step by step with early returns are those of the per-change conditions |
| DnsCheck.NoticesAreAnnounced | src/tasks/check_dns.py:238-250 | a change is in the list of notices iff the check announces it, and none twice |
| DnsCheck.DetectMismatchIff | src/dns_monitor/diff.py:157-180 | two lists of name servers mismatch iff both are known and no permutation pairs their names equal up to case and final dots |
| DnsCheck.MismatchIsAnnouncedIff | src/tasks/check_dns.py:125-141 | a check announces a mismatch iff the flag is down and the lists mismatch in that sense, and its end iff the flag is up and they do not, which a failed resolve and an unknown list count as; a resolve stores what it found |
| DnsCheck.ReachabilityIsAnnouncedIff | src/dns_monitor/diff.py:92-120 | against the row of an earlier check, a fall is announced iff the flag is up and the resolve failed otherwise than by an invalid domain or a disabled monitor, which leave the flag alone; a rise iff the flag is down and records came |
| Permutations.SameMultisetIff | src/dns_monitor/diff.py:170-179 | lists are equal once sorted iff a permutation pairs equal elements |
| DnsCheck.CalculateNextCheck | src/dns_monitor/scheduler.py:36-102 | the next check is in the future and at most a day away |
| DnsCheck.DueIs | src/dns_monitor/scheduler.py:66-90 | when a check is followed by the next: after a resolve in half an hour iff the name servers differ, else in six hours iff records or reachability changed then or within a day before, else in a day; after a failure in a day from the tenth in a row on, in an hour where the domain was never resolved, else in six hours or a day likewise |
| DnsCheck.JobsAreForTrackers | src/tasks/check_dns.py:256-272 | a job exists iff its change is listed and its user is an unmuted subscriber who tracks DNS |
| DnsCheck.Monitor.constructor | src/tasks/check_dns.py:110-117 | monitoring starts without a row or with the scheduler's bootstrap row |
| DnsCheck.Monitor.Check | src/tasks/check_dns.py:100-282 | one check replaces the row by the next row and appends the jobs of its notices |
| DnsCheck.Monitor.Persist | src/tasks/check_dns.py:143-231 | a success stores lists that restore to what was resolved, the fresh mismatch flag and no failures, and the time of a change if there was one; a failure keeps lists, mismatch flag, times of success and change, counts one more, and lowers reachability unless the error is one of configuration; the next check is within a day |
| DnsCheck.Monitor.Enqueue | src/tasks/check_dns.py:260-272 | the queue grows by the jobs of all changes for every subscriber who is told about DNS |
| DnsRuns.CacheHoldsLastRecords | src/tasks/check_dns.py:165-185 | after any run the cached lists are those of the last successful resolve |
| DnsRuns.ListNoticesAreExact | src/dns_monitor/diff.py:105-154 | after the first check a list notice fires iff the list differs as a multiset from the last resolved one |
| DnsRuns.FirstSuccessIsSilentIff | src/tasks/check_dns.py:27-32 | the first success announces nothing iff nothing preceded it and there was no row or no mismatch, or something preceded it, it found no records, and it does not end an outage |
| DnsRuns.FirstCheckAnnouncesMismatch | src/tasks/dns_scheduler.py:38-45 | over the bootstrap row the first check announces a mismatch, and nothing else; without a row it announces nothing |
| DnsRuns.ReachabilityAlternates | src/dns_monitor/diff.py:109-119 | became_unreachable and became_reachable strictly alternate over any run |
| DnsRuns.FlagFollowsNoticesIff | src/tasks/check_dns.py:130-141 | the stored flag is what the notices say iff the check is neither a failure during a mismatch nor a first check without a row that finds one |
| DnsRuns.MismatchAlternatesIff | src/tasks/check_dns.py:130-141 | detected and resolved alternate over a run iff a failed resolve during a mismatch is only ever followed by resolves that find the mismatch again |
| DnsRuns.MismatchIsWatchedIff | src/dns_monitor/scheduler.py:67-90 | while the mismatch flag is up the next check is half an hour away iff the last resolve worked |
| DnsRuns.SuccessfulRunsAlternate | src/tasks/check_dns.py:130-141 | they alternate over every run of successful resolves |
| DnsRuns.PhantomsRepeat | src/tasks/check_dns.py:218-231 | with the flag up every failed resolve announces it as resolved and leaves it up |
| SslCheck.ComputeDiff | src/ssl/diff.py:50-97 | the flags set with early returns are those of the per-change conditions |
| SslCheck.CollectChanges | src/tasks/check_ssl.py:189-202 | the listed changes are the flagged ones, in a fixed order, a rotation only without a new issuer |
| SslCheck.CalculateNextCheck | src/ssl/scheduler.py:23-62 | the next check is a day away iff there were ten failures or the end is more than thirty days off; with fewer failures it is six hours away iff the end is more than seven days off but no more than thirty, one hour iff it is more than one but no more than seven, else four hours |
| SslCheck.UrgencyGrowsIff | src/ssl/scheduler.py:49-59 | checks become no rarer as the end comes closer, except that the last day is checked less often than the week before it |
| SslCheck.Monitor.Check | src/tasks/check_ssl.py:88-178 | one check replaces the row and enqueues exactly the announced changes of the row before it |
| SslCheck.Monitor.Persist | src/tasks/check_ssl.py:230-262 | a success stores the fetched certificate, column by column, so that it restores to it; a failure keeps every certificate field, counts one more, lowers the flag unless there is no HTTPS, and never creates a row |
| SslCheck.Monitor.Enqueue | src/tasks/check_ssl.py:211-222 | the queue grows by the jobs of the wanted changes, subscriber by subscriber |
| SslCheck.ToldIff | src/tasks/check_ssl.py:189-222 | a job exists iff its change is announced and its user is an unmuted subscriber who tracks SSL and has the toggle on: that for issuers for changes of the certificate, that for expiry for reachability |
| SslCheck.StepIsHonestIff | src/tasks/check_ssl.py:256-272 | exactly when a check's notice agrees with what it stores |
| SslCheck.ReachabilityAlternates | src/ssl/diff.py:60-94 | became_unreachable and became_reachable strictly alternate over any run, starting with became_unreachable |
| SslCheck.CacheHoldsLastCertificate | src/tasks/check_ssl.py:131-152 | the cache holds a certificate iff one was fetched, and then the last one's data |
| SslCheck.CertificateNoticesAreExact | src/ssl/diff.py:82-97 | over any run, a new issuer is announced iff it differs from that of the last fetched certificate, a new end date iff it differs and the issuer does not |
| SslCheck.SilentBeforeFirstCertificate | src/tasks/check_ssl.py:173-178 | nothing is announced before a certificate was stored |
| SslCheck.NoHttpsIsNeutral | src/tasks/check_ssl.py:258-262 | a domain without HTTPS moves no flag and causes no notice |
| SslCheck.StoreRestoreIsQuiet | src/tasks/check_ssl.py:46-67 | a stored and restored certificate diffs as unchanged iff it is a certificate |
| EmailCheck.ComputeDiff | src/email_intel/diff.py:58-164 | the flags are those of the per-change conditions |
| EmailCheck.Monitor.Check | src/tasks/check_email_intel.py:115-297 | one check replaces the row and the time of the next check, and enqueues exactly the changes announced against the row before it |
| EmailCheck.CollectChanges | src/tasks/check_email_intel.py:225-238 | the listed changes are the flagged ones, in a fixed order |
| EmailCheck.ToldIff | src/tasks/check_email_intel.py:243-257 | a job exists iff its change is announced and its user is an unmuted subscriber who asked for e-mail changes |
| EmailCheck.CalculateNextCheck | src/email_intel/scheduler.py:22-56 | the next check is a day or a week away, a week iff both policies are there and failures are fewer than ten |
| EmailCheck.WeeklyIff | src/tasks/check_email_intel.py:158-161 | a domain with a row is next due in a week iff the check succeeded and found both policies |
| EmailCheck.StoreRestoreIsQuietIff | src/tasks/check_email_intel.py:47-94 | stored and restored data diff as unchanged iff the selector list is not an empty list and the SPF text is not empty |
| EmailCheck.StoredIs | src/tasks/check_email_intel.py:166-223 | what each column holds after a success |
| EmailCheck.RecordNoticesAreExact | src/email_intel/diff.py:84-164 | over any run, a record is announced as changed iff it differs from the last fetched one: the SPF record in text or mode, the lists as sets, an empty SPF text and an empty selector list counting as absent there |
| EmailCheck.ReachabilityNotices | src/tasks/check_email_intel.py:265-297 | became_reachable is never announced; became_unreachable is announced iff a check fails after a success, nxdomain aside |
| EmailCheck.EmptySelectorsAlwaysReported | src/email_intel/diff.py:151-164 | an empty selector list is announced as a change by every check after a successful one |
| WhoisCheck.RestoreItemsLoop | src/services/whois_facade.py:154-174 | the loop skips non-objects and unknown roles and keeps the order of the rest |
| WhoisCheck.ContactsRoundTrip | src/tasks/check_domain.py:47-64 | every contact list survives serialization, item by item and in order |
| WhoisCheck.SerializedAre | src/tasks/check_domain.py:47-64 | every contact becomes one object with exactly the seven members of the format, each holding the field it is named after |
| WhoisCheck.StoredIs | src/tasks/check_domain.py:157-181 | what each column holds after an answer, those of the registrant being of the first contact in that role |
| WhoisCheck.ComputeDiff | src/whois/diff.py:66-138 | the flags are those of the per-field conditions |
| WhoisCheck.DiffersIff | src/whois/diff.py:79-120 | dates differ by more than an hour or in presence, the registrar as text without outer blanks, empty and absent being the same, lists as sets |
| WhoisCheck.RegistrantsDifferIff | src/whois/diff.py:121-138 | registrants differ only where both answers have one: in the organization, or the name where that says nothing, and in the privacy flag |
| WhoisCheck.StoreRestoreIsQuiet | src/services/whois_facade.py:118-145 | stored and restored data differ from the original only in `is_registered`, and diff as unchanged |
| WhoisCheck.OldRowsAreQuiet | src/services/whois_facade.py:148-195 | a row from before contacts were stored announces no change of registrant |
| WhoisCheck.OldRowsKeepRegistrant | src/services/whois_facade.py:176-195 | from the columns of such a row the registrant comes back as it was, all but the phone |
| WhoisCheck.Monitor.Check | src/tasks/check_domain.py:85-196 | one check replaces the row, with the next check by the expiry date after an answer and by the number of failures after a failure, and enqueues jobs for changes, releases and problems exactly when due |
| WhoisRuns.DriftBound | src/whois/diff.py:141-150 | n successful checks without an expiry notice move the stored date by at most n hours |
| WhoisRuns.DriftAttained | src/tasks/check_domain.py:157-189 | the bound is attained for every n |
| WhoisRuns.RowReflectsLastAnswer | src/services/whois_facade.py:132-145 | a row looks registered iff the last answer had an expiry date or a registrar |
| WhoisRuns.RowHoldsLastAnswer | src/services/whois_facade.py:118-145 | whatever failed since, what is restored from the row is the last answer, all but the registered flag |
| WhoisRuns.ChangesAreExact | src/whois/diff.py:66-138 | over any run, a change is announced iff the answer differs in it from the last one, and that one was stored as a registered domain |
| WhoisRuns.ReleasesAreSeparated | src/tasks/check_domain.py:191-196 | between two releases a check stored registered data |
| WhoisRuns.RegisteredBetweenReleases | src/tasks/check_domain.py:191-196 | where free answers carry no registration data, the domain was registered strictly between two releases |
| WhoisRuns.PlaceholderNeverReleases | src/tasks/check_domain.py:183-188 | a placeholder never releases, however many lookups fail |
| WhoisRuns.ReleaseIsToldIff | src/tasks/check_domain.py:191-196 | over any run, however many lookups failed in between, a registered domain that becomes free is announced iff its last registered answer had a date or a registrar |
| WhoisRuns.CountersAreExact | src/tasks/check_domain.py:374-386 | the fail count is the number of failures since the last success, and the row remembers the time of that |
| WhoisRuns.ProblemIsEnqueuedIff | src/tasks/check_domain.py:396-410 | for all settings, a failure enqueues jobs iff the failures in a row reach the threshold and the last success is as old as the cooldown |
| ProblemNotices.Subscription.SendProblemNotice | src/tasks/notify_problem.py:58-134 | a job tells iff the subscription wants it, the last mark is none or a cooldown old, and the send works; then, and only then, it marks the row with the time it took |
| ProblemNotices.NoticesKeepCooldown | src/tasks/notify_problem.py:73-76 | jobs that run one after another never tell twice within the cooldown, whatever the jobs |
| ProblemNotices.SilentIffRecentlyTold | src/tasks/notify_problem.py:73-76 | a job that could tell stays silent iff a notice is less than a cooldown old |
| ProblemNotices.EveryInterleaving | src/tasks/notify_problem.py:63-134 | in every interleaving jobs and deliveries stay within the timeout, and every mark that is due or lost is that of a delivered notice |
| ProblemNotices.OrderlyRunsKeepCooldown | src/tasks/notify_problem.py:73-129 | whatever the outcomes, over an orderly run the jobs of two notices start a cooldown apart, and deliveries are as far apart but for the time a job may take |
| ProblemNotices.CooldownIsKeptIff | src/config/limits.py:119-123 | where whoever may send delivers, no two notices are within the cooldown iff no passing read overlaps with another such job before its mark, or comes within the cooldown after a job whose mark was lost |
| ProblemNotices.OverlapBreaksCooldown | src/tasks/notify_problem.py:73-129 | two jobs that both read before either marks tell a subscriber twice |
| ProblemNotices.LostMarkBreaksCooldown | src/tasks/notify_problem.py:98-129 | a job that dies between delivery and mark lets the next one tell again, however soon |
| ProblemNotices.SlowJobShortensCooldown | src/tasks/notify_problem.py:63-129 | the bound on deliveries is attained by a run that keeps the cooldown |
| ProblemNotices.SequentialRunsAreOrderly | src/tasks/notify_problem.py:58-134 | jobs one after another are an orderly run of the interleaved task, with the same marks and notices |
| ProblemRuns.JobsKeepCooldownIff | src/tasks/check_domain.py:396-410 | over any run of checks, jobs are a cooldown apart iff no lookup fails again, within the cooldown, right after a failure that enqueued jobs |
| ProblemRuns.JobsNeedRecovery | src/tasks/check_domain.py:374-410 | with lookups that come when they are due, and a cooldown above a day, iff every such failure is followed by an answer |
| ProblemRuns.NoticesKeepCooldown | src/config/limits.py:119-123 | over any run of checks, with jobs that run one after another, no two notices to a subscriber are within the cooldown |
| ProblemRuns.NotifiedIff | src/tasks/notify_problem.py:69-76 | a subscriber who can be reached is told after a check iff the failures reach the threshold, the last success is a cooldown old, and no notice is younger than that |
| ProblemRuns.ToldAgain | src/tasks/notify_problem.py:73-76 | while lookups keep failing, the first job a cooldown after a notice tells again |
| ProblemRuns.OutageIsToldOnce | src/tasks/check_domain.py:405-410 | by default an outage enqueues jobs at the fifth and, half a day later, at the sixth failure; the former tells, the latter does not |
| WhoisNotices.CollectPairs | src/tasks/check_domain.py:239-281 | the list of pairs holds one notice per flagged field, in order, with its old and new value |
| WhoisNotices.Queue.EnqueueChanges | src/tasks/check_domain.py:226-294 | the queue grows by the jobs of the list, subscriber by subscriber |
| WhoisNotices.ListedTwiceIff | src/tasks/check_domain.py:239-281 | for any diff, only the privacy notice can repeat an earlier one of the list |
| WhoisNotices.ToldIff | src/tasks/check_domain.py:297-320 | a subscriber is sent a notice iff what it tells is true, that is, the field of its kind differs and the notice shows its old and its new value, and the toggle of its kind is on |
| WhoisNotices.PrivacyNoticeIs | src/tasks/check_domain.py:268-281 | a privacy change is told as hiding iff only the old owner is named, as revealing iff only the new one is; an owner is the organization, or the name where there is none |
| WhoisNotices.PrivacyRepeatsIff | src/tasks/check_domain.py:268-281 | the notice of a privacy change is that of another change iff that is the change of owner and both owners are named or none is |
| WhoisNotices.ToldTwiceIff | src/tasks/check_domain.py:259-281 | the list repeats a notice iff owner and privacy flag change at once and both owners are named |
| CheckChain.CalculateNextCheck | src/whois/scheduler.py:36-84 | every interval is at least a day; from the expiry date to the end of the grace period it is exactly a day; monitoring ends iff that period is over, the wishlist aside |
| CheckChain.RetryAfterFailure | src/whois/scheduler.py:87-119 | a retry is between a quarter of an hour and a day away |
| CheckChain.RetriesSlowDown | src/whois/scheduler.py:87-119 | more failures never bring the retry forward; the first five delays are those of the documentation; it is a day away iff there are at least six |
| CheckChain.ChainAdvancesAndStops | src/whois/scheduler.py:56-84 | with a fixed expiry the chain advances by at least a day each time, by exactly a day from the expiry date on, and stops, for all legal limits |
| CheckChain.CoversExpiryIff | src/whois/scheduler.py:56-84 | every chain started before expiry has a check in its last 24 hours iff the limits are at most 90, 30, 7 and 1 days |
| CheckChain.DefaultsCoverExpiry | src/config/limits.py:87-95 | the default limits do |
| Subdomains.Monitor.Check | src/tasks/check_subdomains.py:85-165 | one check replaces the row and appends its notice; a success stores the names and forgets failures, a failure keeps the names, counts and announces nothing; after a failure the next check comes in an hour, from the third on in a day, else as the scheduler says |
| Subdomains.ReplayReconstructsCache | src/tasks/check_subdomains.py:127-158 | folding all notices over the first list gives exactly the cached set, after any run of successes and failures |
| Subdomains.NoticesAreExact | src/subdomains/diff.py:52-62 | removed names were cached, added ones were not, both lists are sorted, and a success is silent iff the sets agree |
| Subdomains.OrderDoesNotMatter | src/subdomains/diff.py:42-43 | order and repetitions of the enumerations do not matter to the notice |
| Subdomains.CalculateNextCheck | src/subdomains/scheduler.py:24-58 | the next check is at least an hour away, less than a day iff there were one or two failures, thirty days where nothing was found, else the interval of the plan, a day at least |
| Sorting.SortedDifferenceIs | src/subdomains/diff.py:59-62 | the sorted difference is ascending and has exactly the members of the set difference |
| Sorting.AscendingIsUnique | src/subdomains/diff.py:59-62 | a sorted list is determined by its members |
| Reminders.EveryInterleaving | src/db/models.py:361-378 | the journal has one row per key at most, and every message's worker read before the key's row existed |
| Reminders.OrderlyRunsSendOnce | src/tasks/send_reminders.py:109-177 | whatever the outcomes, a key is sent at most once where no negative read overlaps with another worker or follows a row lost to a crash |
| Reminders.SentOnceIff | src/tasks/send_reminders.py:20-23 | where whoever is past a negative read delivers, a key is sent at most once iff no such read overlaps with another worker or follows a row lost to a crash |
| Reminders.NeverSentAgainIff | src/tasks/send_reminders.py:109-117 | from any state no continuation sends a key again iff its row is in the journal and no worker is past a negative read |
| Reminders.OverlappingReadsSendTwice | src/tasks/send_reminders.py:20-23 | two workers that both read first send twice, for any key |
| Reminders.CrashBeforeRecordSendsTwice | src/tasks/send_reminders.py:133-177 | a worker that dies before recording makes the next run send again |
| Lines.SplitTerminated | scripts/handoff.py:106-106 | splitting a text made of line-break-free lines gives the lines back |
| Lines.JoinSplitIff | scripts/handoff.py:122-122 | splitting a text into lines and joining them with line feeds gives it back, without the final one, iff it has no other line breaks |
| FrontmatterValues.ScalarRoundTripIff | scripts/handoff.py:72-92 | a scalar comes back as itself iff it is strip-stable and not delimited by brackets or one kind of quote |
| FrontmatterValues.QuotedIsRead | scripts/handoff.py:79-82 | a text between quotes of one kind, whatever it is, is read as that text |
| FrontmatterValues.DumpedListParses | scripts/handoff.py:72-89 | a printed list is parsed into the non-blank items between its commas, without outer blanks and quotes |
| FrontmatterValues.ListRoundTripIff | scripts/handoff.py:72-89 | a list comes back as itself iff its items are non-empty, comma-free, strip-stable and unquoted |
| FrontmatterValues.ValueRoundTripIff | scripts/handoff.py:72-92 | a value behind a key comes back as itself iff it is such a scalar or such a list |
| Frontmatter.WriteKnown | scripts/handoff.py:127-129 | the first loop prints the present fields in their fixed order |
| Frontmatter.WriteUnknown | scripts/handoff.py:130-133 | the second loop prints all other keys in insertion order |
| Frontmatter.WriteTask | scripts/handoff.py:126-138 | the printed text is header, entries, header, body without final newlines |
| Frontmatter.FindClosing | scripts/handoff.py:107-111 | the search finds the first closing line |
| Frontmatter.EnterBlock | scripts/handoff.py:114-119 | the loop makes the dict of the lines that have a colon, later keys overriding earlier ones |
| Frontmatter.ReadFrontmatter | scripts/handoff.py:100-123 | the reader returns the dict and body, or the whole text where there is no complete header |
| Frontmatter.ParsedIsPrintable | scripts/handoff.py:100-123 | whatever the text, no key that is read holds a colon, an outer blank or a line break, and no value a line break |
| TaskText.DumpValueIs | scripts/handoff.py:86-92 | a list is printed in brackets with a comma and a blank between any two parts of it, a scalar as it is, an empty one as two quotes |
| TaskText.ParseValueIs | scripts/handoff.py:72-83 | a text is read as a list iff it stands in brackets, else as what stands between its quotes, if they are of one kind, else as it is, outer blanks aside |
| TaskText.PrintedIs | scripts/handoff.py:126-138 | the printed text is dashes, one line for each key, dashes, an empty line and the body without final newlines; the keys are the fixed fields the dict has, in their order, then its other keys in its own |
| TaskText.ParsedIs | scripts/handoff.py:100-123 | of any text with a whole block: a key has a value iff the last line of the block that says anything of the key says that value, where a line says what stands around its first colon; the body is the lines behind the block without first newlines |
| TaskText.OtherTextIsBody | scripts/handoff.py:103-113 | any text that does not begin with dashes, or has no closing line, is read as a body without dict |
| Frontmatter.RoundTripIff | scripts/handoff.py:100-138 | reading what was written gives back the dict, unknown keys included, iff every entry is clean (a key without colon, outer blanks and line breaks, a value that comes back and has no line breaks), and the body without outer newlines as well iff moreover line feeds are its only line breaks |
| WhoisText.ReadField | src/whois/parser.py:383-398 | with disjoint key sets the cascade updates every field as if it were alone |
| WhoisText.Absorb | src/whois/parser.py:515-541 | a contact field leaves the accumulator in agreement with all mentions so far: order of first mention, last showable value per field, redaction |
| WhoisText.Turn | src/whois/parser.py:335-398 | one turn changes every variable by a rule of its own, although the branches of the body are tried in order |
| WhoisText.BlockStep | src/whois/parser.py:331-358 | a name-server block is open iff only lines without a key stand between an empty name-server key and here |
| WhoisText.ReadLines | src/whois/parser.py:335-398 | after the loop dates, registrar, statuses, name servers and contacts are each the function of all lines that describes them |
| WhoisText.FinalizeContacts | src/whois/parser.py:549-587 | one contact for every role that has something to say, in the order of first mention |
| WhoisParser.VocabularyIsDistinct | src/whois/parser.py:91-165 | no key of the six vocabularies stands for two fields |
| WhoisParser.ReaderKeepsSecrets | src/whois/parser.py:522-546 | what a contact field keeps is never blank and never a privacy placeholder, upper-cased country codes included |
| WhoisParser.IsOrganizationIff | src/whois/parser.py:505-511 | of the three keys listed as organizations, those without a blank are filed as one and the DENIC key under name, for every kind of domain |
| WhoisLines.ClassifyIs | src/whois/parser.py:335-358 | a line is a break iff it is blank or a comment, else a pair iff it has the shape of one, with the key in lower case and the value without outer blanks, else an indented text iff it begins with a blank or a tab |
| WhoisLines.ContactKeyIff | src/whois/parser.py:455-512 | which role and field a key names: those around its first dot, else around its first blank, else, for Russian registries, those of their table, else the organization of the registrant, for three keys, else none |
| WhoisLines.StoreIs | src/whois/parser.py:522-541 | a contact field keeps its value without outer blanks, a country of two or three letters in capitals |
| WhoisLines.PlaceholderIff | src/whois/parser.py:436-440 | a value is a placeholder iff without outer blanks it is one of the known texts, in any letter case |
| WhoisLines.ReadsIff | src/whois/parser.py:371-398 | a line gives a plain field a value iff its key is one of the field's, names no contact field, and the value is neither empty nor a placeholder; without such a value, a key for name servers opens a list |
| WhoisLines.MentionIff | src/whois/parser.py:515-541 | a line mentions a contact field iff its key names it and its value is no link; the value is hidden iff it is a placeholder of either kind, shown iff it is none and not blank |
| WhoisLines.CleanServerIs | src/whois/parser.py:605-615 | a name server is the first word of its value, in lower case and without final dots |
| WhoisLines.IsUrlIff | src/whois/parser.py:515-518 | a contact value is skipped as a link iff it begins with one of the two schemes, in any letter case |
| WhoisLines.IsRuLikeIff | src/whois/parser.py:457-460 | a domain is read by the Russian keys iff it ends in one of the three zones, in any letter case |
| WhoisAnswer.ParseWhoisText | src/whois/parser.py:287-422 | a text in which one of the known phrases stands, in any letter case, is a free domain with nothing else; of any other text: each of the three dates is t iff the first line under its own keys whose value parses says t, and missing iff none parses; the registrar is the value of the first line under its keys; there is one status, the first word, for each line under its keys, in order; each server that some line contributes is listed once; there is one contact for each role that says anything, in the order of first mention, with the last showable value for each field and redacted iff some value was a placeholder |
| WhoisAnswer.SaysNotFoundIff | src/whois/parser.py:590-593 | a text says that there is no such domain iff one of the phrases stands in it, in any letter case |
| WhoisAnswer.DateIs | src/whois/parser.py:385-390 | a date is t iff the first line under its keys whose value parses says t |
| WhoisAnswer.DateMissing | src/whois/parser.py:385-390 | a date is missing iff no value under its keys parses |
| WhoisAnswer.ServersAre | src/whois/parser.py:345-352 | a name server is listed iff some line, continuation lines included, contributes it, and none twice |
| WhoisAnswer.FieldIs | src/whois/parser.py:534-541 | the last value of a contact field that may be shown wins |
| WhoisAnswer.ContactsTellNoSecrets | src/whois/parser.py:554-587 | no field of a contact is a privacy placeholder; a contact is redacted iff some value of its role was one |
| WhoisAnswer.RolesAreDistinct | src/whois/parser.py:549-587 | no role has two contacts |
| BulkImport.DetectCsv | src/services/csv_io.py:246-254 | a file is CSV iff one of its first twenty lines is neither blank nor a comment and has a separator |
| BulkImport.TakeEntry | src/services/csv_io.py:201-228 | one entry keeps the variables of the loop equal to their descriptions, or proves that the limit is exceeded |
| BulkImport.ReadEntries | src/services/csv_io.py:190-228 | the loop with break computes: the first `max` distinct valid names, truncated iff there are more, the rejects before the cut, the header skipped once |
| ImportedFile.ParseDomainFile | src/services/csv_io.py:155-230 | an empty or undecodable file gives the empty result; any other is read up to some line: to its end, or to a line that says one name too many, and then, and only then, it is truncated. `valid` holds each name that the lines before it say once, in order of first mention, where a line that is neither blank, a comment nor the header says the valid, normalised name of its token; `invalid` holds, in order, the lines before it that have a token and say no name; never more names than the limit |
| BulkImport.KeptIs | src/services/csv_io.py:225-227 | the cut is the longest prefix within the limit |
| BulkImport.NothingIsLost | src/services/csv_io.py:212-228 | before the cut every line's name is among the valid ones or the line among the invalid ones |
| FreeVerdict.LookupDirect | src/whois/client.py:129-206 | free iff RDAP denies the domain, or RDAP is silent and a real WHOIS text denies it; registered iff RDAP has a record, or RDAP is silent and a real text confirms it; each error iff its cause; the source is that of the evidence |
| FreeVerdict.LookupViaProxy | src/whois/proxy_client.py:51-178 | falls back iff the proxy is unreachable, raises iff the body is no JSON object or a parser breaks its promise, free iff the proxy or a real upstream answer denies the domain, registered iff one confirms it, each error iff its cause |
| FreeVerdict.VerifyUnregistered | src/whois/client.py:79-126 | only a free answer from a text is touched: contradicted by an RDAP record, verified by a denial, else unverified |
| FreeVerdict.LookupDomain | src/whois/client.py:36-68 | free iff somebody denied the domain and no RDAP record contradicts a mere text; registered iff somebody confirmed it or such a record contradicts; failures are not evidence; the answer has the source and the marks of its evidence, exactly one mark on a denial by text; each error iff its cause; raises iff the proxy client does |
| FreeVerdict.GetOrFetch | src/services/whois_facade.py:42-90 | data are shown unmarked iff the cache answers or there is live evidence of either kind, and then those data with that source; a free answer is always live, with the marks its evidence calls for; the row is shown as stale iff the lookup failed and the row has a time and an expiry date; each error is returned iff the lookup failed with it and the row cannot stand in; the cache answers iff its row is fresh and looks registered |
| Freshness.UnmarkedIsFreshIff | src/services/whois_facade.py:106-111 | over any run, and whenever somebody asks, what is shown without a mark is no older than the window iff no check failed after the last answer, or that answer is not shown at all |
| Freshness.OutagePassesOffOldData | src/db/repositories/whois_cache.py:114-118 | at every failed check of an outage, however long, the old data are shown without a mark |

## Left out

- DnsCheck.Monitor.Check: leaves out the autonomous-system part of the diff, because the enrichment behind it always returns an empty list; also the on-demand delivery to a chat.
- EmailCheck.Monitor.Check: leaves out the on-demand delivery to a chat; the time of the next check stands beside the row.
- SslCheck.Monitor.Check: leaves out the on-demand delivery to a chat.
- WhoisCheck.Monitor.Check: leaves out `raw_data` and the pending follow-ups after `/add`.
- Subdomains.Monitor.Check: leaves out the on-demand delivery to a chat.
- WhoisAnswer.ParseWhoisText: takes the date parser as a parameter; lines are classified before the loop instead of inside it, which makes no difference to a function without side effects.
- Frontmatter.WriteTask: stops at the text; newline translation of the file system is not modelled. The two loops and the final assembly are separate methods.
- ImportedFile.ParseDomainFile: takes decoding, the CSV reader, IDN normalisation and the syntax check as parameters, and a limit that is not negative.
- TimedLock.SafeIff: models one key and one Redis server; a job that acquired its key in the very instant it started would need a lifetime above the timeout. A delete that is lost is one that nobody sends, as with `check_subdomains`.
- ProblemNotices.CooldownIsKeptIff: models one subscription, which is not removed and added again in between, and takes the clock of the task and of the runner for the same; the text of the notice and the journal entry beside the mark are left out.
- Reminders.OrderlyRunsSendOnce: leaves out the checks of user settings before the read, which can only prevent a message.
- RDAP parsing (`parse_rdap`, `_extract_contacts`): case analysis over JSON, without state beyond first-wins.
- Task identifiers, slugs, the board and the commands of scripts/handoff.py.
- Telegram handlers, keyboards, locales, formatters, the web application, charts, health scores, backups, alerts, audit.
- Domain, wishlist and group services, SQL, migrations, queues other than the job lists above.
