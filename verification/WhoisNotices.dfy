/**
 The change notices of a WHOIS check (src/tasks/check_domain.py, `_enqueue_change_notices` and
 `_is_user_subscribed_to`): which subscriber is told what, and when somebody is told the same thing twice.
 */
module WhoisNotices {
  import opened Sequences
  import opened WhoisCheck
  import opened FanOut

  datatype Kind = OfExpiry | OfRegistrar | OfServers | OfStatus | OfRegistrant | OfHiding | OfRevealing

  /** The old or new value a notice shows. */
  datatype Shown = Date(date: Option<int>) | Line(text: Option<string>) | Names(names: seq<string>)

  datatype Notice = Notice(kind: Kind, before: Shown, after: Shown)

  datatype Subscriber = Subscriber(user: int, muted: bool, expiry: bool, servers: bool, registrar: bool, status: bool,
                                   registrant: bool)

  /** `organization or name` of the registrant; only used when there is one. */
  function Owner(d: Data): Option<string> {
    var r := RegistrantOf(d.contacts);
    if r.None? then None else if Truthy(r.value.organization) then r.value.organization else r.value.name
  }

  /** The notice an owner's disappearance or appearance calls for; a plain one when the names do not tell. */
  function PrivacyKind(before: Option<string>, after: Option<string>): Kind {
    if Truthy(before) && !Truthy(after) then OfHiding
    else if Truthy(after) && !Truthy(before) then OfRevealing
    else OfRegistrant
  }

  /** The notice a change of the diff is announced with. */
  function NoticeOf(a: Data, b: Data, c: Change): Notice {
    match c
    case ExpiresAt => Notice(OfExpiry, Date(a.expires), Date(b.expires))
    case Registrar => Notice(OfRegistrar, Line(a.registrar), Line(b.registrar))
    case NameServers => Notice(OfServers, Names(a.nameServers), Names(b.nameServers))
    case Status => Notice(OfStatus, Names(a.status), Names(b.status))
    case RegistrantIdentity => Notice(OfRegistrant, Line(Owner(a)), Line(Owner(b)))
    case RegistrantPrivacy => Notice(PrivacyKind(Owner(a), Owner(b)), Line(Owner(a)), Line(Owner(b)))
  }

  /** Position of a change in the list of pairs. */
  function Rank(c: Change): (k: nat)
    ensures k < 6
  {
    match c
    case ExpiresAt => 0 case Registrar => 1 case NameServers => 2
    case Status => 3 case RegistrantIdentity => 4 case RegistrantPrivacy => 5
  }

  function ChangeAt(k: nat): (c: Change)
    requires k < 6
    ensures Rank(c) == k
  {
    if k == 0 then ExpiresAt else if k == 1 then Registrar else if k == 2 then NameServers
    else if k == 3 then Status else if k == 4 then RegistrantIdentity else RegistrantPrivacy
  }

  /** The notices of those of the first `n` kinds of change that occurred. */
  function Listed(occurred: Change -> bool, notice: Change -> Notice, n: nat): seq<Notice>
    requires n <= 6
  {
    if n == 0 then []
    else
      var c := ChangeAt(n - 1);
      Listed(occurred, notice, n - 1) + if occurred(c) then [notice(c)] else []
  }

  function DiffersIn(a: Data, b: Data): Change -> bool {
    c => Differs(a, b, c)
  }

  function NoticeFor(a: Data, b: Data): Change -> Notice {
    c => NoticeOf(a, b, c)
  }

  const KINDS: nat := 6

  /** The list `pairs` of `_enqueue_change_notices`. */
  function Notices(a: Data, b: Data): seq<Notice> {
    Listed(DiffersIn(a, b), NoticeFor(a, b), KINDS)
  }

  /** One conditional append to `pairs`: the notice of change `c`, after those of all changes before it. */
  method AppendIf(on: bool, notice: Notice, pairs: seq<Notice>, ghost c: Change,
                  ghost occurred: Change -> bool, ghost of: Change -> Notice) returns (more: seq<Notice>)
    requires pairs == Listed(occurred, of, Rank(c)) && on == occurred(c) && notice == of(c)
    ensures more == Listed(occurred, of, Rank(c) + 1)
  {
    assert ChangeAt(Rank(c)) == c;
    more := if on then pairs + [notice] else pairs;
  }

  /** First the dates and the registrar, */
  method CollectDates(diff: Diff, a: Data, b: Data, ghost occurred: Change -> bool, ghost of: Change -> Notice)
      returns (pairs: seq<Notice>)
    requires diff.expires == occurred(ExpiresAt) && diff.registrar == occurred(Registrar)
    requires of(ExpiresAt) == Notice(OfExpiry, Date(a.expires), Date(b.expires))
    requires of(Registrar) == Notice(OfRegistrar, Line(a.registrar), Line(b.registrar))
    ensures pairs == Listed(occurred, of, Rank(NameServers))
  {
    pairs := AppendIf(diff.expires, Notice(OfExpiry, Date(a.expires), Date(b.expires)), [], ExpiresAt, occurred, of);
    pairs := AppendIf(diff.registrar, Notice(OfRegistrar, Line(a.registrar), Line(b.registrar)), pairs, Registrar,
                      occurred, of);
  }

  /** then the lists, */
  method CollectLists(diff: Diff, a: Data, b: Data, dates: seq<Notice>,
                      ghost occurred: Change -> bool, ghost of: Change -> Notice) returns (pairs: seq<Notice>)
    requires dates == Listed(occurred, of, Rank(NameServers))
    requires diff.nameServers == occurred(NameServers) && diff.status == occurred(Status)
    requires of(NameServers) == Notice(OfServers, Names(a.nameServers), Names(b.nameServers))
    requires of(Status) == Notice(OfStatus, Names(a.status), Names(b.status))
    ensures pairs == Listed(occurred, of, Rank(RegistrantIdentity))
  {
    pairs := AppendIf(diff.nameServers, Notice(OfServers, Names(a.nameServers), Names(b.nameServers)), dates,
                      NameServers, occurred, of);
    pairs := AppendIf(diff.status, Notice(OfStatus, Names(a.status), Names(b.status)), pairs, Status, occurred, of);
  }

  method ChooseKind(before: Option<string>, after: Option<string>) returns (kind: Kind)
    ensures kind == PrivacyKind(before, after)
  {
    kind := OfRegistrant;
    if Truthy(before) && !Truthy(after) {
      kind := OfHiding;
    } else if Truthy(after) && !Truthy(before) {
      kind := OfRevealing;
    }
  }

  /** then the registrant. */
  method CollectRegistrant(diff: Diff, before: Option<string>, after: Option<string>, lists: seq<Notice>,
                           ghost occurred: Change -> bool, ghost of: Change -> Notice) returns (pairs: seq<Notice>)
    requires lists == Listed(occurred, of, Rank(RegistrantIdentity))
    requires diff.identity == occurred(RegistrantIdentity) && diff.privacy == occurred(RegistrantPrivacy)
    requires of(RegistrantIdentity) == Notice(OfRegistrant, Line(before), Line(after))
    requires of(RegistrantPrivacy) == Notice(PrivacyKind(before, after), Line(before), Line(after))
    ensures pairs == Listed(occurred, of, KINDS)
  {
    pairs := AppendIf(diff.identity, Notice(OfRegistrant, Line(before), Line(after)), lists, RegistrantIdentity,
                      occurred, of);
    var kind := ChooseKind(before, after);
    pairs := AppendIf(diff.privacy, Notice(kind, Line(before), Line(after)), pairs, RegistrantPrivacy, occurred, of);
  }

  /** The flags of the diff, one by one. */
  ghost predicate FlagsAre(diff: Diff, occurred: Change -> bool) {
    && diff.expires == occurred(ExpiresAt) && diff.registrar == occurred(Registrar)
    && diff.nameServers == occurred(NameServers) && diff.status == occurred(Status)
    && diff.identity == occurred(RegistrantIdentity) && diff.privacy == occurred(RegistrantPrivacy)
  }

  /** The notices, one by one. */
  ghost predicate NoticesAre(of: Change -> Notice, a: Data, b: Data, before: Option<string>, after: Option<string>) {
    && of(ExpiresAt) == Notice(OfExpiry, Date(a.expires), Date(b.expires))
    && of(Registrar) == Notice(OfRegistrar, Line(a.registrar), Line(b.registrar))
    && of(NameServers) == Notice(OfServers, Names(a.nameServers), Names(b.nameServers))
    && of(Status) == Notice(OfStatus, Names(a.status), Names(b.status))
    && of(RegistrantIdentity) == Notice(OfRegistrant, Line(before), Line(after))
    && of(RegistrantPrivacy) == Notice(PrivacyKind(before, after), Line(before), Line(after))
  }

  lemma FlagsOccur(diff: Diff, a: Data, b: Data)
    requires forall c :: FlagOf(diff, c) == Differs(a, b, c)
    ensures FlagsAre(diff, DiffersIn(a, b))
  {
    assert FlagOf(diff, ExpiresAt) == Differs(a, b, ExpiresAt) && FlagOf(diff, Registrar) == Differs(a, b, Registrar);
    assert FlagOf(diff, NameServers) == Differs(a, b, NameServers) && FlagOf(diff, Status) == Differs(a, b, Status);
    assert FlagOf(diff, RegistrantIdentity) == Differs(a, b, RegistrantIdentity);
    assert FlagOf(diff, RegistrantPrivacy) == Differs(a, b, RegistrantPrivacy);
  }

  lemma NoticesAreThese(a: Data, b: Data, before: Option<string>, after: Option<string>)
    requires before == Owner(a) && after == Owner(b)
    ensures NoticesAre(NoticeFor(a, b), a, b, before, after)
  {
  }

  /** All of `pairs`. */
  method CollectAll(diff: Diff, a: Data, b: Data, before: Option<string>, after: Option<string>,
                    ghost occurred: Change -> bool, ghost of: Change -> Notice) returns (pairs: seq<Notice>)
    requires FlagsAre(diff, occurred) && NoticesAre(of, a, b, before, after)
    ensures pairs == Listed(occurred, of, KINDS)
  {
    pairs := CollectDates(diff, a, b, occurred, of);
    pairs := CollectLists(diff, a, b, pairs, occurred, of);
    pairs := CollectRegistrant(diff, before, after, pairs, occurred, of);
  }

  /** The list `pairs`, from the flags of the diff. */
  method CollectPairs(diff: Diff, a: Data, b: Data) returns (pairs: seq<Notice>)
    requires forall c :: FlagOf(diff, c) == Differs(a, b, c)
    ensures pairs == Notices(a, b)
  {
    FlagsOccur(diff, a, b);
    NoticesAreThese(a, b, Owner(a), Owner(b));
    pairs := CollectAll(diff, a, b, Owner(a), Owner(b), DiffersIn(a, b), NoticeFor(a, b));
  }

  /** `_is_user_subscribed_to`. */
  predicate Wants(sub: Subscriber, k: Kind) {
    && !sub.muted
    && match k
       case OfExpiry => sub.expiry
       case OfServers => sub.servers
       case OfRegistrar => sub.registrar
       case OfStatus => sub.status
       case _ => sub.registrant
  }

  predicate WantsNotice(sub: Subscriber, n: Notice) {
    Wants(sub, n.kind)
  }

  function WhoisJobs(subs: seq<Subscriber>, notices: seq<Notice>): seq<Job<Notice>> {
    Jobs(subs, notices, (sub: Subscriber) => sub.user, WantsNotice)
  }

  /** The job queue. */
  class Queue {
    var jobs: seq<Job<Notice>>

    /** `_enqueue_change_notices`. */
    method EnqueueChanges(subs: seq<Subscriber>, diff: Diff, a: Data, b: Data)
      requires forall c :: FlagOf(diff, c) == Differs(a, b, c)
      modifies this
      ensures jobs == old(jobs) + WhoisJobs(subs, Notices(a, b))
    {
      var pairs := CollectPairs(diff, a, b);
      jobs := FanOut.Enqueue(jobs, subs, pairs, (sub: Subscriber) => sub.user, WantsNotice);
    }
  }

  // ---------------------------------------------------------------------------
  // Who is told what
  // ---------------------------------------------------------------------------

  lemma {:induction false} ListedAre(occurred: Change -> bool, notice: Change -> Notice, n: nat, x: Notice)
    requires n <= 6
    ensures x in Listed(occurred, notice, n) <==> exists c :: Rank(c) < n && occurred(c) && x == notice(c)
  {
    if n > 0 {
      ListedAre(occurred, notice, n - 1, x);
      assert forall c :: Rank(c) == n - 1 ==> c == ChangeAt(n - 1);
    }
  }

  /** Not muted, and the toggle for notices of the kind is on; the three kinds about owners share one. */
  predicate HasToggle(sub: Subscriber, k: Kind) {
    && !sub.muted && (k.OfExpiry? ==> sub.expiry) && (k.OfServers? ==> sub.servers)
    && (k.OfRegistrar? ==> sub.registrar) && (k.OfStatus? ==> sub.status)
    && (k.OfRegistrant? || k.OfHiding? || k.OfRevealing? ==> sub.registrant)
  }

  lemma HasToggleIff(sub: Subscriber, k: Kind)
    ensures HasToggle(sub, k) <==> Wants(sub, k)
  {
  }

  /** What a notice of each kind tells: that its field differs, with the old value before the new one. */
  predicate IsTrue(a: Data, b: Data, n: Notice) {
    match n.kind
    case OfExpiry => Differs(a, b, ExpiresAt) && n.before == Date(a.expires) && n.after == Date(b.expires)
    case OfRegistrar => Differs(a, b, Registrar) && n.before == Line(a.registrar) && n.after == Line(b.registrar)
    case OfServers => Differs(a, b, NameServers) && n.before == Names(a.nameServers) && n.after == Names(b.nameServers)
    case OfStatus => Differs(a, b, Status) && n.before == Names(a.status) && n.after == Names(b.status)
    case OfRegistrant =>
      && (Differs(a, b, RegistrantIdentity)
          || (Differs(a, b, RegistrantPrivacy) && Truthy(Owner(a)) == Truthy(Owner(b))))
      && n.before == Line(Owner(a)) && n.after == Line(Owner(b))
    case OfHiding =>
      && Differs(a, b, RegistrantPrivacy) && Truthy(Owner(a)) && !Truthy(Owner(b))
      && n.before == Line(Owner(a)) && n.after == Line(Owner(b))
    case OfRevealing =>
      && Differs(a, b, RegistrantPrivacy) && !Truthy(Owner(a)) && Truthy(Owner(b))
      && n.before == Line(Owner(a)) && n.after == Line(Owner(b))
  }

  lemma IsTrueIff(a: Data, b: Data, n: Notice)
    ensures IsTrue(a, b, n) <==> exists c :: Differs(a, b, c) && n == NoticeOf(a, b, c)
  {
    if IsTrue(a, b, n) {
      var c := match n.kind case OfExpiry => ExpiresAt case OfRegistrar => Registrar case OfServers => NameServers
                            case OfStatus => Status
                            case OfRegistrant =>
                              if Differs(a, b, RegistrantIdentity) then RegistrantIdentity else RegistrantPrivacy
                            case _ => RegistrantPrivacy;
      assert Differs(a, b, c) && n == NoticeOf(a, b, c);
    }
  }

  /** A subscriber is sent a notice exactly when what it tells is true and the toggle of its kind is on. */
  lemma ToldIff(a: Data, b: Data, subs: seq<Subscriber>, job: Job<Notice>)
    ensures job in WhoisJobs(subs, Notices(a, b))
       <==> IsTrue(a, b, job.change)
            && exists k :: 0 <= k < |subs| && subs[k].user == job.user && HasToggle(subs[k], job.change.kind)
  {
    var notices := Notices(a, b);
    IsTrueIff(a, b, job.change);
    JobsAreWanted(subs, notices, (sub: Subscriber) => sub.user, WantsNotice, job);
    ListedAre(DiffersIn(a, b), NoticeFor(a, b), KINDS, job.change);
    assert forall c :: DiffersIn(a, b)(c) == Differs(a, b, c) && NoticeFor(a, b)(c) == NoticeOf(a, b, c);
    forall k | 0 <= k < |subs| ensures WantsNotice(subs[k], job.change) <==> HasToggle(subs[k], job.change.kind) {
      HasToggleIff(subs[k], job.change.kind);
    }
  }

  /** The position of the change a kind of notice stands for; privacy notices with a kind of their own come last. */
  function KindRank(k: Kind): nat {
    match k
    case OfExpiry => 0 case OfRegistrar => 1 case OfServers => 2 case OfStatus => 3 case OfRegistrant => 4
    case OfHiding => 5 case OfRevealing => 5
  }

  /** The kind of a notice tells its change, privacy changes aside. */
  ghost predicate KindsTell(notice: Change -> Notice) {
    forall c :: c != RegistrantPrivacy ==> KindRank(notice(c).kind) == Rank(c)
  }

  lemma {:induction false} KindsDiffer(occurred: Change -> bool, notice: Change -> Notice, n: nat)
    requires n <= Rank(RegistrantPrivacy) && KindsTell(notice)
    ensures forall x :: x in Listed(occurred, notice, n) ==> KindRank(x.kind) < n
    ensures NoDuplicates(Listed(occurred, notice, n))
  {
    if n > 0 {
      var front, x := Listed(occurred, notice, n - 1), notice(ChangeAt(n - 1));
      KindsDiffer(occurred, notice, n - 1);
      SnocDuplicates(front, x);
      assert front + [] == front;
    }
  }

  /** Only the last notice can repeat an earlier one. */
  lemma ListedTwiceIff(occurred: Change -> bool, notice: Change -> Notice)
    requires KindsTell(notice)
    ensures !NoDuplicates(Listed(occurred, notice, KINDS))
       <==> occurred(RegistrantPrivacy)
            && exists c :: c != RegistrantPrivacy && occurred(c) && notice(c) == notice(RegistrantPrivacy)
  {
    var n := Rank(RegistrantPrivacy);
    var front, x := Listed(occurred, notice, n), notice(RegistrantPrivacy);
    assert ChangeAt(n) == RegistrantPrivacy;
    KindsDiffer(occurred, notice, n);
    SnocDuplicates(front, x);
    ListedAre(occurred, notice, n, x);
    assert front + [] == front;
  }

  /** Owners of different identity are not both blank. */
  lemma DifferentOwners(a: Data, b: Data)
    requires Differs(a, b, RegistrantIdentity)
    ensures Truthy(Owner(a)) || Truthy(Owner(b))
  {
  }

  /** The notice of a privacy change is that of a change of owner, where both owners are named or none is; else none. */
  lemma PrivacyRepeatsIff(a: Data, b: Data, c: Change)
    requires c != RegistrantPrivacy
    ensures NoticeOf(a, b, c) == NoticeOf(a, b, RegistrantPrivacy)
       <==> c == RegistrantIdentity && Truthy(Owner(a)) == Truthy(Owner(b))
  {
  }

  lemma NoticeKindsTell(a: Data, b: Data)
    ensures KindsTell(NoticeFor(a, b))
  {
  }

  /** What a named owner is: the organization, or the name where there is none. */
  lemma PrivacyNoticeIs(a: Data, b: Data)
    requires RegistrantOf(a.contacts).Some? && RegistrantOf(b.contacts).Some?
    ensures var x, y := RegistrantOf(a.contacts).value, RegistrantOf(b.contacts).value;
            var named, stillNamed := Truthy(x.organization) || Truthy(x.name), Truthy(y.organization) || Truthy(y.name);
            && (NoticeOf(a, b, RegistrantPrivacy).kind == OfHiding <==> named && !stillNamed)
            && (NoticeOf(a, b, RegistrantPrivacy).kind == OfRevealing <==> !named && stillNamed)
            && (Truthy(x.organization) ==> Owner(a) == x.organization)
            && (!Truthy(x.organization) ==> Owner(a) == x.name)
  {
  }

  /**
   The list holds the same notice twice exactly when the registrant changed from one named owner to another and the
   privacy flag flipped in the same check: the ambiguous privacy change falls back to the notice already listed.
   */
  lemma ToldTwiceIff(a: Data, b: Data)
    ensures !NoDuplicates(Notices(a, b))
       <==> Differs(a, b, RegistrantIdentity) && Differs(a, b, RegistrantPrivacy)
            && Truthy(Owner(a)) && Truthy(Owner(b))
  {
    NoticeKindsTell(a, b);
    ListedTwiceIff(DiffersIn(a, b), NoticeFor(a, b));
    RepetitionIs(a, b);
  }

  lemma RepetitionIs(a: Data, b: Data)
    ensures (exists c :: c != RegistrantPrivacy && DiffersIn(a, b)(c)
                         && NoticeFor(a, b)(c) == NoticeFor(a, b)(RegistrantPrivacy))
       <==> Differs(a, b, RegistrantIdentity) && Truthy(Owner(a)) && Truthy(Owner(b))
  {
    if Differs(a, b, RegistrantIdentity) {
      DifferentOwners(a, b);
    }
    PrivacyRepeatsIff(a, b, RegistrantIdentity);
    if c :| c != RegistrantPrivacy && DiffersIn(a, b)(c) && NoticeFor(a, b)(c) == NoticeFor(a, b)(RegistrantPrivacy) {
      PrivacyRepeatsIff(a, b, c);
    }
    if Differs(a, b, RegistrantIdentity) && Truthy(Owner(a)) && Truthy(Owner(b)) {
      assert DiffersIn(a, b)(RegistrantIdentity);
    }
  }

  lemma SnocDuplicates<T>(s: seq<T>, x: T)
    requires NoDuplicates(s)
    ensures NoDuplicates(s + [x]) <==> x !in s
  {
    if x in s {
      var i :| 0 <= i < |s| && s[i] == x;
      assert (s + [x])[i] == (s + [x])[|s|];
    }
  }
}
