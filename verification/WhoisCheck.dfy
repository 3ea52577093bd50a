/**
 `check_domain`: look up, diff against the restored row, store, announce
 (src/tasks/check_domain.py, src/whois/diff.py, src/services/whois_facade.py `_cache_to_data`).
 Times are seconds.
 */
module WhoisCheck {
  import opened Sequences
  import opened Text
  import opened CheckChain

  datatype Role = Registrant | Admin | Tech | Billing | Abuse

  datatype Contact = Contact(role: Role, name: Option<string>, organization: Option<string>, email: Option<string>,
                             phone: Option<string>, country: Option<string>, redacted: bool)

  datatype Data = Data(registered: bool, expires: Option<int>, created: Option<int>, updated: Option<int>,
                       registrar: Option<string>, status: seq<string>, nameServers: seq<string>, contacts: seq<Contact>)

  /** What a JSONB column may hold; only objects are read back. */
  datatype Json = Null | Str(text: string) | Bool(on: bool) | Object(fields: map<string, Json>)

  /** A row of `whois_cache`. */
  datatype Row = Row(expires: Option<int>, created: Option<int>, updated: Option<int>, registrar: Option<string>,
                     status: Option<seq<string>>, nameServers: Option<seq<string>>,
                     registrantName: Option<string>, registrantOrg: Option<string>, registrantCountry: Option<string>,
                     registrantEmail: Option<string>, registrantRedacted: bool, contactsData: Option<seq<Json>>,
                     fetchedAt: Option<int>, lastSuccess: Option<int>, nextCheck: Option<int>, failCount: nat)

  const PLACEHOLDER := Row(None, None, None, None, None, None, None, None, None, None, false, None, None, None, None, 0)

  // ---------------------------------------------------------------------------
  // Contacts
  // ---------------------------------------------------------------------------

  function RoleName(r: Role): string {
    match r
    case Registrant => "registrant" case Admin => "admin" case Tech => "tech"
    case Billing => "billing" case Abuse => "abuse"
  }

  /** The role of a stored item; None for anything the reader skips. */
  function RoleOf(j: Json): Option<Role> {
    if !j.Str? then None
    else if j.text == "registrant" then Some(Registrant)
    else if j.text == "admin" then Some(Admin)
    else if j.text == "tech" then Some(Tech)
    else if j.text == "billing" then Some(Billing)
    else if j.text == "abuse" then Some(Abuse)
    else None
  }

  function ToJson(s: Option<string>): Json {
    if s.Some? then Str(s.value) else Null
  }

  function Field(fields: map<string, Json>, key: string): Json {
    if key in fields then fields[key] else Null
  }

  function TextOf(j: Json): Option<string> {
    if j.Str? then Some(j.text) else None
  }

  predicate JsonTruthy(j: Json) {
    match j
    case Null => false
    case Str(text) => text != []
    case Bool(on) => on
    case Object(fields) => fields != map[]
  }

  function SerializeContact(c: Contact): Json {
    Object(map["role" := Str(RoleName(c.role)), "name" := ToJson(c.name), "organization" := ToJson(c.organization),
               "email" := ToJson(c.email), "phone" := ToJson(c.phone), "country" := ToJson(c.country),
               "is_redacted" := Bool(c.redacted)])
  }

  /** `_serialize_contacts`. */
  function Serialize(contacts: seq<Contact>): seq<Json> {
    if contacts == [] then [] else Serialize(contacts[..|contacts| - 1]) + [SerializeContact(contacts[|contacts| - 1])]
  }

  /** One stored item; None when the reader skips it. */
  function RestoreContact(j: Json): Option<Contact> {
    if !j.Object? || RoleOf(Field(j.fields, "role")).None? then None
    else
      var f := j.fields;
      Some(Contact(RoleOf(Field(f, "role")).value, TextOf(Field(f, "name")), TextOf(Field(f, "organization")),
                   TextOf(Field(f, "email")), TextOf(Field(f, "phone")), TextOf(Field(f, "country")),
                   JsonTruthy(Field(f, "is_redacted"))))
  }

  function RestoreItems(items: seq<Json>): seq<Contact> {
    if items == [] then []
    else RestoreItems(items[..|items| - 1]) + Optional(RestoreContact(items[|items| - 1]))
  }

  predicate Truthy(s: Option<string>) {
    s.Some? && s.value != []
  }

  /** `_restore_contacts`: the stored list, or one registrant made from the columns of an older row. */
  function RestoreContacts(row: Row): seq<Contact> {
    if row.contactsData.Some? && row.contactsData.value != [] then RestoreItems(row.contactsData.value)
    else if Truthy(row.registrantName) || Truthy(row.registrantOrg) || Truthy(row.registrantCountry)
            || Truthy(row.registrantEmail) || row.registrantRedacted then
      [Contact(Registrant, row.registrantName, row.registrantOrg, row.registrantEmail, None, row.registrantCountry,
               row.registrantRedacted)]
    else []
  }

  /** The loop of `_restore_contacts`. */
  method RestoreItemsLoop(items: seq<Json>) returns (out: seq<Contact>)
    ensures out == RestoreItems(items)
  {
    out := [];
    for k := 0 to |items|
      invariant out == RestoreItems(items[..k])
    {
      assert items[..k + 1][..k] == items[..k];
      if !items[k].Object? {
        continue;
      }
      if RoleOf(Field(items[k].fields, "role")).None? {
        continue;
      }
      out := out + [RestoreContact(items[k]).value];
    }
    assert items[..|items|] == items;
  }

  lemma ContactRoundTrip(c: Contact)
    ensures RestoreContact(SerializeContact(c)) == Some(c)
  {
    assert RoleOf(Str(RoleName(c.role))) == Some(c.role);
  }

  lemma RestoreItemsSnoc(items: seq<Json>, item: Json)
    ensures RestoreItems(items + [item]) == RestoreItems(items) + Optional(RestoreContact(item))
  {
    assert (items + [item])[..|items|] == items;
  }

  /** Every contact list survives serialization, item by item and in order. */
  lemma {:induction false} ContactsRoundTrip(contacts: seq<Contact>)
    ensures RestoreItems(Serialize(contacts)) == contacts
    ensures |Serialize(contacts)| == |contacts|
  {
    if contacts != [] {
      var front, c := contacts[..|contacts| - 1], contacts[|contacts| - 1];
      ContactsRoundTrip(front);
      ContactRoundTrip(c);
      RestoreItemsSnoc(Serialize(front), SerializeContact(c));
      assert contacts == front + [c];
    }
  }

  function RegistrantOf(contacts: seq<Contact>): Option<Contact> {
    if contacts == [] then None
    else if contacts[0].role == Registrant then Some(contacts[0])
    else RegistrantOf(contacts[1..])
  }

  // ---------------------------------------------------------------------------
  // Rows
  // ---------------------------------------------------------------------------

  /** The row a successful check writes. */
  function Store(d: Data, now: int, nextCheck: Option<int>): Row {
    var r := RegistrantOf(d.contacts);
    Row(d.expires, d.created, d.updated, d.registrar, OrNone(d.status), OrNone(d.nameServers),
        if r.Some? then r.value.name else None, if r.Some? then r.value.organization else None,
        if r.Some? then r.value.country else None, if r.Some? then r.value.email else None,
        r.Some? && r.value.redacted,
        if d.contacts == [] then None else Some(Serialize(d.contacts)), Some(now), Some(now), nextCheck, 0)
  }

  /** A row with real data, as opposed to a placeholder or a free domain. */
  predicate LooksRegistered(row: Row) {
    row.expires.Some? || Truthy(row.registrar)
  }

  /** `_cache_to_data`. */
  function Restore(row: Row): Data {
    Data(LooksRegistered(row), row.expires, row.created, row.updated, row.registrar,
         OrEmpty(row.status), OrEmpty(row.nameServers), RestoreContacts(row))
  }

  // ---------------------------------------------------------------------------
  // The diff
  // ---------------------------------------------------------------------------

  const DATE_TOLERANCE := 3600

  datatype Change = ExpiresAt | Registrar | NameServers | Status | RegistrantIdentity | RegistrantPrivacy

  predicate SameDate(a: Option<int>, b: Option<int>) {
    if a.Some? && b.Some? then -DATE_TOLERANCE <= a.value - b.value <= DATE_TOLERANCE else a.None? && b.None?
  }

  /** `_norm_str`: blank text counts as absent. */
  function NormText(s: Option<string>): Option<string> {
    if s.None? || Strip(s.value) == [] then None else Some(Strip(s.value))
  }

  function Identity(c: Contact): Option<string> {
    if NormText(c.organization).Some? then NormText(c.organization) else NormText(c.name)
  }

  /** The flags of `compute_diff(old, new)` for a known old state. */
  predicate Differs(a: Data, b: Data, c: Change) {
    var ra, rb := RegistrantOf(a.contacts), RegistrantOf(b.contacts);
    match c
    case ExpiresAt => !SameDate(a.expires, b.expires)
    case Registrar => NormText(a.registrar) != NormText(b.registrar)
    case NameServers => Members(a.nameServers) != Members(b.nameServers)
    case Status => Members(a.status) != Members(b.status)
    // a registrant missing on either side may only mean that it was not parsed
    case RegistrantIdentity => ra.Some? && rb.Some? && Identity(ra.value) != Identity(rb.value)
    case RegistrantPrivacy => ra.Some? && rb.Some? && ra.value.redacted != rb.value.redacted
  }

  datatype Diff = Diff(expires: bool, registrar: bool, nameServers: bool, status: bool, identity: bool, privacy: bool)

  predicate FlagOf(d: Diff, c: Change) {
    match c
    case ExpiresAt => d.expires
    case Registrar => d.registrar
    case NameServers => d.nameServers
    case Status => d.status
    case RegistrantIdentity => d.identity
    case RegistrantPrivacy => d.privacy
  }

  /** `compute_diff` with `_compare_registrants`. */
  method ComputeDiff(cached: Option<Data>, latest: Data) returns (diff: Diff)
    ensures forall c :: FlagOf(diff, c) == (cached.Some? && Differs(cached.value, latest, c))
  {
    diff := Diff(false, false, false, false, false, false);
    if cached.None? {
      return;
    }
    var before := cached.value;
    diff := diff.(expires := !SameDate(before.expires, latest.expires));
    diff := diff.(registrar := NormText(before.registrar) != NormText(latest.registrar));
    diff := diff.(nameServers := Members(before.nameServers) != Members(latest.nameServers));
    diff := diff.(status := Members(before.status) != Members(latest.status));
    var ra, rb := RegistrantOf(before.contacts), RegistrantOf(latest.contacts);
    if ra.None? || rb.None? {
      return;
    }
    diff := diff.(identity := Identity(ra.value) != Identity(rb.value));
    diff := diff.(privacy := ra.value.redacted != rb.value.redacted);
  }

  /** Missing or blank. */
  predicate SaysNothing(s: Option<string>) {
    s.None? || AllBlank(s.value)
  }

  lemma NormTextIs(s: Option<string>)
    ensures NormText(s) == if SaysNothing(s) then None else Some(Strip(s.value))
  {
    if s.Some? {
      StripIsEmptyIff(s.value);
    }
  }

  /** The first registrant of the list. */
  lemma {:induction false} RegistrantIs(contacts: seq<Contact>, c: Contact)
    ensures RegistrantOf(contacts) == Some(c) <==> IsFirstRegistrant(contacts, c)
  {
    if contacts != [] {
      RegistrantIs(contacts[1..], c);
      FirstRegistrantCons(contacts, c);
    }
  }

  ghost predicate IsFirstRegistrant(contacts: seq<Contact>, c: Contact) {
    exists i: nat :: IsFirstRegistrantAt(contacts, c, i)
  }

  predicate IsFirstRegistrantAt(contacts: seq<Contact>, c: Contact, i: nat) {
    && i < |contacts| && contacts[i] == c && c.role == Registrant
    && forall j :: 0 <= j < i ==> contacts[j].role != Registrant
  }

  lemma FirstRegistrantCons(contacts: seq<Contact>, c: Contact)
    requires contacts != []
    ensures IsFirstRegistrant(contacts, c)
       <==> if contacts[0].role == Registrant then c == contacts[0] else IsFirstRegistrant(contacts[1..], c)
  {
    var rest := contacts[1..];
    assert forall j :: 0 <= j < |rest| ==> rest[j] == contacts[j + 1];
    if i: nat :| IsFirstRegistrantAt(contacts, c, i) {
      assert i == 0 || IsFirstRegistrantAt(rest, c, i - 1);
    }
    if contacts[0].role == Registrant {
      assert IsFirstRegistrantAt(contacts, contacts[0], 0);
    } else if i: nat :| IsFirstRegistrantAt(rest, c, i) {
      assert IsFirstRegistrantAt(contacts, c, i + 1);
    }
  }

  /** Two texts of which one says nothing, or both something else; outer blanks aside. */
  predicate TextsDiffer(a: Option<string>, b: Option<string>) {
    if SaysNothing(a) || SaysNothing(b) then SaysNothing(a) != SaysNothing(b) else Strip(a.value) != Strip(b.value)
  }

  /** When plain fields differ: dates by more than an hour, texts up to blanks, lists as sets. */
  lemma DiffersIff(a: Data, b: Data)
    ensures Differs(a, b, ExpiresAt) <==>
              if a.expires.Some? && b.expires.Some?
              then a.expires.value > b.expires.value + 3600 || b.expires.value > a.expires.value + 3600
              else a.expires.Some? != b.expires.Some?
    ensures Differs(a, b, Registrar) <==> TextsDiffer(a.registrar, b.registrar)
    ensures Differs(a, b, NameServers) <==> exists x :: (x in a.nameServers) != (x in b.nameServers)
    ensures Differs(a, b, Status) <==> exists x :: (x in a.status) != (x in b.status)
  {
    NormTextIs(a.registrar);
    NormTextIs(b.registrar);
    MembersDiffer(a.nameServers, b.nameServers);
    MembersDiffer(a.status, b.status);
  }

  /** The text that identifies a registrant: the organization, or the name where the former says nothing. */
  function IdentifyingText(c: Contact): Option<string> {
    if SaysNothing(c.organization) then c.name else c.organization
  }

  /** When registrants differ: only where both are known, by the texts that identify them, and by the privacy flag. */
  lemma RegistrantsDifferIff(a: Data, b: Data)
    ensures Differs(a, b, RegistrantIdentity) <==>
              exists x, y :: IsFirstRegistrant(a.contacts, x) && IsFirstRegistrant(b.contacts, y)
                             && TextsDiffer(IdentifyingText(x), IdentifyingText(y))
    ensures Differs(a, b, RegistrantPrivacy) <==>
              exists x, y :: IsFirstRegistrant(a.contacts, x) && IsFirstRegistrant(b.contacts, y)
                             && x.redacted != y.redacted
  {
    var ra, rb := RegistrantOf(a.contacts), RegistrantOf(b.contacts);
    forall c ensures ra == Some(c) <==> IsFirstRegistrant(a.contacts, c) {
      RegistrantIs(a.contacts, c);
    }
    forall c ensures rb == Some(c) <==> IsFirstRegistrant(b.contacts, c) {
      RegistrantIs(b.contacts, c);
    }
    if ra.Some? && rb.Some? {
      IdentityIs(ra.value);
      IdentityIs(rb.value);
      NormTextIs(IdentifyingText(ra.value));
      NormTextIs(IdentifyingText(rb.value));
      assert IsFirstRegistrant(a.contacts, ra.value) && IsFirstRegistrant(b.contacts, rb.value);
    }
  }

  lemma IdentityIs(c: Contact)
    ensures Identity(c) == NormText(IdentifyingText(c))
  {
    NormTextIs(c.organization);
  }

  /** From the columns of an older row the registrant comes back as it was, all but the phone. */
  lemma OldRowsKeepRegistrant(row: Row, d: Data, now: int, next: Option<int>, c: Contact)
    requires row == Store(d, now, next).(contactsData := None) && RegistrantOf(d.contacts) == Some(c)
    ensures Restore(row).contacts ==
              if Truthy(c.name) || Truthy(c.organization) || Truthy(c.country) || Truthy(c.email) || c.redacted
              then [c.(phone := None)] else []
  {
    RegistrantIs(d.contacts, c);
  }

  /** What the columns of a stored row hold. */
  lemma StoredIs(d: Data, now: int, next: Option<int>, c: Contact)
    ensures var row := Store(d, now, next);
            && row.expires == d.expires && row.created == d.created && row.updated == d.updated
            && row.registrar == d.registrar
            && OrEmpty(row.status) == d.status && OrEmpty(row.nameServers) == d.nameServers
            && row.fetchedAt == row.lastSuccess == Some(now) && row.nextCheck == next && row.failCount == 0
            && (IsFirstRegistrant(d.contacts, c) ==>
                  && row.registrantName == c.name && row.registrantOrg == c.organization
                  && row.registrantCountry == c.country && row.registrantEmail == c.email
                  && row.registrantRedacted == c.redacted)
  {
    RegistrantIs(d.contacts, c);
  }

  /** What is stored of a contact: one JSON object for each, with a member for each of its fields. */
  lemma {:induction false} SerializedAre(contacts: seq<Contact>, k: nat)
    requires k < |contacts|
    ensures |Serialize(contacts)| == |contacts| && Serialize(contacts)[k].Object?
    ensures var c, f := contacts[k], Serialize(contacts)[k].fields;
            && f.Keys == {"role", "name", "organization", "email", "phone", "country", "is_redacted"}
            && f["name"] == ToJson(c.name) && f["organization"] == ToJson(c.organization)
            && f["email"] == ToJson(c.email) && f["phone"] == ToJson(c.phone) && f["country"] == ToJson(c.country)
            && f["role"] == Str(RoleName(c.role)) && f["is_redacted"] == Bool(c.redacted)
  {
    var front := contacts[..|contacts| - 1];
    SerializedContactIs(contacts[|contacts| - 1]);
    ContactsRoundTrip(contacts);
    ContactsRoundTrip(front);
    if k < |front| {
      SerializedAre(front, k);
    }
  }

  lemma SerializedContactIs(c: Contact)
    ensures var f := SerializeContact(c).fields;
            && f.Keys == {"role", "name", "organization", "email", "phone", "country", "is_redacted"}
            && f["name"] == ToJson(c.name) && f["organization"] == ToJson(c.organization)
            && f["email"] == ToJson(c.email) && f["phone"] == ToJson(c.phone) && f["country"] == ToJson(c.country)
            && f["role"] == Str(RoleName(c.role)) && f["is_redacted"] == Bool(c.redacted)
  {
  }

  lemma RestoreOfStore(d: Data, now: int, next: Option<int>)
    ensures Restore(Store(d, now, next)) == d.(registered := d.expires.Some? || Truthy(d.registrar))
  {
    ContactsRoundTrip(d.contacts);
  }

  lemma RegisteredDoesNotMatter(a: Data, b: Data, registered: bool, c: Change)
    ensures Differs(a.(registered := registered), b, c) == Differs(a, b, c)
  {
  }

  /** Storing looked-up data, restoring it and diffing it against itself reports nothing. */
  lemma StoreRestoreIsQuiet(d: Data, now: int, next: Option<int>, c: Change)
    ensures Restore(Store(d, now, next)) == d.(registered := d.expires.Some? || Truthy(d.registrar))
    ensures !Differs(Restore(Store(d, now, next)), d, c)
  {
    RestoreOfStore(d, now, next);
    RegisteredDoesNotMatter(d, d, d.expires.Some? || Truthy(d.registrar), c);
  }

  /** A row from before contacts were stored: its columns stand in for the registrant, so that stays quiet. */
  lemma OldRowsAreQuiet(row: Row, d: Data, now: int, next: Option<int>)
    requires row == Store(d, now, next).(contactsData := None)
    ensures !Differs(Restore(row), d, RegistrantIdentity) && !Differs(Restore(row), d, RegistrantPrivacy)
  {
  }

  // ---------------------------------------------------------------------------
  // One check
  // ---------------------------------------------------------------------------

  datatype Event = Answered(data: Data, onlyWishlist: bool, now: int) | LookupFailed(now: int)

  /** The settings for telling of a problem: `fail_threshold_for_user_notice` and `problem_notify_cooldown_days`. */
  datatype ProblemPolicy = ProblemPolicy(threshold: int, cooldownDays: int)

  const DEFAULT_POLICY := ProblemPolicy(5, 7)

  /** A success rewrites the row; a failure counts, and renews the time of the fetch like a success. */
  function NextRow(prev: Option<Row>, e: Event, l: Limits): Option<Row> {
    match e
    case Answered(d, onlyWishlist, now) => Some(Store(d, now, CalculateNextCheck(d.expires, now, l, onlyWishlist)))
    case LookupFailed(now) =>
      if prev.None? then None
      else
        Some(prev.value.(failCount := prev.value.failCount + 1, fetchedAt := Some(now),
                         nextCheck := Some(RetryAfterFailure(prev.value.failCount + 1, now))))
  }

  /** A change notice is sent: only against a row with real data. */
  predicate Announces(prev: Option<Row>, e: Event, c: Change) {
    e.Answered? && prev.Some? && LooksRegistered(prev.value) && Differs(Restore(prev.value), e.data, c)
  }

  /** The wishlist is told that the domain is free. */
  predicate Releases(prev: Option<Row>, e: Event) {
    e.Answered? && prev.Some? && LooksRegistered(prev.value) && !e.data.registered
  }

  /** `_should_notify_problem`: a job that may tell of the problem is enqueued for every subscriber. */
  predicate EnqueuesProblem(prev: Option<Row>, e: Event, p: ProblemPolicy) {
    && e.LookupFailed? && prev.Some? && prev.value.failCount + 1 >= p.threshold
    && prev.value.lastSuccess.Some? && e.now - prev.value.lastSuccess.value >= p.cooldownDays * DAY
  }

  /** What one check enqueues jobs for. */
  datatype Outcome = Outcome(diff: Diff, released: bool, problem: bool)

  /** The cache row of one domain. */
  class Monitor {
    var row: Option<Row>

    /** `check_domain` after the lookup. */
    method Check(e: Event, l: Limits, p: ProblemPolicy) returns (out: Outcome)
      modifies this
      ensures row == NextRow(old(row), e, l)
      // an answer is followed up by its expiry date, a failure by the number of failures, but only where there is a row
      ensures e.Answered? ==>
        row.Some? && row.value.nextCheck == CalculateNextCheck(e.data.expires, e.now, l, e.onlyWishlist)
      ensures e.LookupFailed? && old(row).Some? ==>
        row.Some? && row.value.nextCheck == Some(RetryAfterFailure(old(row).value.failCount + 1, e.now))
      ensures e.LookupFailed? && old(row).None? ==> row == None
      ensures forall c :: FlagOf(out.diff, c) == Announces(old(row), e, c)
      ensures out.released == Releases(old(row), e)
      ensures out.problem == EnqueuesProblem(old(row), e, p)
    {
      var before := row;
      var none := Diff(false, false, false, false, false, false);
      match e {
        case LookupFailed(now) =>
          var failCount := (if before.Some? then before.value.failCount else 0) + 1;
          var next := RetryAfterFailure(failCount, now);
          out := Outcome(none, false, false);
          if before.Some? {
            row := Some(before.value.(failCount := failCount, fetchedAt := Some(now), nextCheck := Some(next)));
            if failCount >= p.threshold && before.value.lastSuccess.Some?
               && now - before.value.lastSuccess.value >= p.cooldownDays * DAY {
              out := out.(problem := true);
            }
          }
        case Answered(d, onlyWishlist, now) =>
          var cached := if before.Some? then Some(Restore(before.value)) else None;
          row := Some(Store(d, now, CalculateNextCheck(d.expires, now, l, onlyWishlist)));
          var diff := ComputeDiff(cached, d);
          out := Outcome(none, false, false);
          if cached.Some? && cached.value.registered {
            out := out.(diff := diff);
            if !d.registered {
              out := out.(released := true);
            }
          }
      }
    }
  }
}
