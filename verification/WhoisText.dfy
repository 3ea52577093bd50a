/**
 The one-pass parser of WHOIS text (src/whois/parser.py, `parse_whois_text` and the contact fields).

 The loop keeps eight variables while it walks over the lines. Here each of them is described on its own,
 as a function of all lines read, and the loop is proved to compute those eight functions.
 */
module WhoisText {
  import opened Sequences
  import opened Text

  // ---------------------------------------------------------------------------
  // Lines, keys and the functions the loop leans on
  // ---------------------------------------------------------------------------

  /** A line as the loop sees it; a pair carries its key in lower case and its value without outer blanks. */
  datatype Line = Break | Plain | Indented(text: string) | Pair(key: string, raw: string)

  datatype Role = Registrant | Admin | Tech | Billing
  datatype Field = Name | Organization | Email | Phone | Country
  datatype Slot = Slot(role: Role, field: Field)

  /** The sets of keys of the plain fields. */
  datatype Vocabulary = Vocabulary(expiry: set<string>, created: set<string>, updated: set<string>,
                                   registrar: set<string>, status: set<string>, servers: set<string>)

  /** No key stands for two fields, so that the order of the tests in the loop does not matter. */
  ghost predicate Distinct(v: Vocabulary) {
    && v.expiry !! (v.created + v.updated + v.registrar + v.status + v.servers)
    && v.created !! (v.updated + v.registrar + v.status + v.servers)
    && v.updated !! (v.registrar + v.status + v.servers)
    && v.registrar !! (v.status + v.servers)
    && v.status !! v.servers
  }

  /**
   `contact` reads a key as a contact field, `url` and `hidden` recognise values that must not be shown in one,
   `store` is the text a contact field keeps, `redacted` recognises the placeholders of plain fields.
   */
  datatype Reader = Reader(contact: string -> Option<Slot>, url: string -> bool, hidden: string -> bool,
                           store: (Field, string) -> string, redacted: string -> bool,
                           date: string -> Option<int>, cleanStatus: string -> string, cleanServer: string -> string)

  // ---------------------------------------------------------------------------
  // What each field is, as a function of the lines
  // ---------------------------------------------------------------------------

  /** The line gives a plain field from `keys` a value. */
  predicate Reads(rd: Reader, keys: set<string>, l: Line) {
    l.Pair? && rd.contact(l.key).None? && l.key in keys && l.raw != [] && !rd.redacted(l.raw)
  }

  /** All values given under `keys`, in order. */
  function Values(rd: Reader, keys: set<string>, lines: seq<Line>): seq<string> {
    if lines == [] then []
    else
      var l := lines[|lines| - 1];
      Values(rd, keys, lines[..|lines| - 1]) + if Reads(rd, keys, l) then [l.raw] else []
  }

  /** The first value that parses as a date. */
  function FirstParsed(date: string -> Option<int>, values: seq<string>): (r: Option<int>)
    ensures r.None? ==> forall v :: v in values ==> date(v).None?
    ensures r.Some? ==> exists i ::
      0 <= i < |values| && date(values[i]) == r && forall j :: 0 <= j < i ==> date(values[j]).None?
  {
    if values == [] then None
    else
      var front, last := values[..|values| - 1], values[|values| - 1];
      var earlier := FirstParsed(date, front);
      assert values == front + [last];
      assert date(values[|values| - 1]) == date(last);
      if earlier.Some? then earlier else date(last)
  }

  function First(values: seq<string>): Option<string> {
    if values == [] then None else Some(values[0])
  }

  function Map(f: string -> string, values: seq<string>): seq<string> {
    if values == [] then [] else Map(f, values[..|values| - 1]) + [f(values[|values| - 1])]
  }

  /** The line names a list of name servers without giving one: the list follows on indented lines. */
  predicate Opens(rd: Reader, v: Vocabulary, l: Line) {
    l.Pair? && rd.contact(l.key).None? && l.key in v.servers && (l.raw == [] || rd.redacted(l.raw))
  }

  /** After these lines an indented line continues a list: only lines without a key stand between it and its opener. */
  ghost predicate InBlock(rd: Reader, v: Vocabulary, lines: seq<Line>) {
    exists j :: 0 <= j < |lines| && Opens(rd, v, lines[j]) && Continues(lines[j + 1..])
  }

  ghost predicate Continues(lines: seq<Line>) {
    forall m :: 0 <= m < |lines| ==> lines[m].Plain? || lines[m].Indented?
  }

  /** The host name line `l` contributes when it follows the lines `before`. */
  ghost function ServerAt(rd: Reader, v: Vocabulary, before: seq<Line>, l: Line): Option<string> {
    if l.Indented? && InBlock(rd, v, before) then Some(rd.cleanServer(l.text))
    else if Reads(rd, v.servers, l) then Some(rd.cleanServer(l.raw))
    else None
  }

  /** All host names the text lists, repetitions included. */
  ghost function Servers(rd: Reader, v: Vocabulary, lines: seq<Line>): seq<string> {
    if lines == [] then []
    else
      var before := lines[..|lines| - 1];
      var name := ServerAt(rd, v, before, lines[|lines| - 1]);
      Servers(rd, v, before) + if name.Some? && name.value != [] then [name.value] else []
  }

  datatype Mention = Mention(slot: Slot, raw: string)

  /** The contact fields of the text, except those that hold a URL. */
  function Mentions(rd: Reader, lines: seq<Line>): seq<Mention> {
    if lines == [] then [] else Mentions(rd, lines[..|lines| - 1]) + MentionAt(rd, lines[|lines| - 1])
  }

  function MentionAt(rd: Reader, l: Line): seq<Mention> {
    if l.Pair? && rd.contact(l.key).Some? && !rd.url(l.raw) then [Mention(rd.contact(l.key).value, l.raw)] else []
  }

  predicate IsHidden(rd: Reader, raw: string) {
    rd.hidden(raw) || rd.redacted(raw)
  }

  predicate IsShown(rd: Reader, raw: string) {
    !IsHidden(rd, raw) && Strip(raw) != []
  }

  /** The last value of a contact field that may be shown. */
  function FieldOf(rd: Reader, ms: seq<Mention>, slot: Slot): Option<string> {
    if ms == [] then None
    else
      var m := ms[|ms| - 1];
      if m.slot == slot && IsShown(rd, m.raw) then Some(rd.store(slot.field, m.raw))
      else FieldOf(rd, ms[..|ms| - 1], slot)
  }

  /** Some value of the role was a privacy placeholder. */
  predicate HidesSomething(rd: Reader, ms: seq<Mention>, role: Role) {
    exists m :: m in ms && m.slot.role == role && IsHidden(rd, m.raw)
  }

  function RolesOf(ms: seq<Mention>): seq<Role> {
    if ms == [] then [] else RolesOf(ms[..|ms| - 1]) + [ms[|ms| - 1].slot.role]
  }

  datatype Contact = Contact(role: Role, name: Option<string>, organization: Option<string>, email: Option<string>,
                             phone: Option<string>, country: Option<string>, redacted: bool)
  {
    function Get(f: Field): Option<string> {
      match f
      case Name => name
      case Organization => organization
      case Email => email
      case Phone => phone
      case Country => country
    }

    predicate IsEmpty() {
      name.None? && organization.None? && email.None? && phone.None? && country.None? && !redacted
    }
  }

  function ContactOf(rd: Reader, ms: seq<Mention>, role: Role): Contact {
    Contact(role, FieldOf(rd, ms, Slot(role, Name)), FieldOf(rd, ms, Slot(role, Organization)),
            FieldOf(rd, ms, Slot(role, Email)), FieldOf(rd, ms, Slot(role, Phone)),
            FieldOf(rd, ms, Slot(role, Country)),
            HidesSomething(rd, ms, role))
  }

  /** One contact for every role that has something to say, in the order of first mention. */
  function ContactsOf(rd: Reader, ms: seq<Mention>, roles: seq<Role>): seq<Contact> {
    if roles == [] then []
    else
      var c := ContactOf(rd, ms, roles[|roles| - 1]);
      ContactsOf(rd, ms, roles[..|roles| - 1]) + if c.IsEmpty() then [] else [c]
  }

  // ---------------------------------------------------------------------------
  // Contacts: the accumulator
  // ---------------------------------------------------------------------------

  /** What has been collected for a role; a field may be present without a value. */
  datatype Card = Card(fields: map<Field, Option<string>>, redacted: bool) {
    function Get(f: Field): Option<string> {
      if f in fields then fields[f] else None
    }
  }

  /** The dict of cards and its insertion order. */
  datatype Book = Book(order: seq<Role>, cards: map<Role, Card>)

  ghost predicate BookAgrees(rd: Reader, ms: seq<Mention>, b: Book) {
    && b.order == FirstOccurrences(RolesOf(ms))
    && (forall r :: r in b.cards <==> r in b.order)
    && CardsAgree(rd, ms, b)
  }

  /** The part of `_try_absorb_contact_field` behind the recognition of the key. */
  method Absorb(rd: Reader, b: Book, slot: Slot, raw: string, ghost ms: seq<Mention>) returns (b': Book)
    requires BookAgrees(rd, ms, b)
    ensures BookAgrees(rd, if rd.url(raw) then ms else ms + [Mention(slot, raw)], b')
  {
    if rd.url(raw) {
      return b;
    }
    var ready := OpenCard(rd, b, slot, raw, ms);
    var card := FillIn(rd, ready.cards[slot.role], slot.field, raw);
    MentionedCard(rd, ms, Mention(slot, raw), ready.cards[slot.role], card);
    CardStep(rd, ms, Mention(slot, raw), ready, card);
    b' := ready.(cards := ready.cards[slot.role := card]);
  }

  /** A placeholder marks the card and leaves its field alone, a blank changes nothing, anything else is stored. */
  method FillIn(rd: Reader, card: Card, field: Field, raw: string) returns (card': Card)
    ensures forall f :: card'.Get(f) == if f == field && IsShown(rd, raw) then Some(rd.store(f, raw)) else card.Get(f)
    ensures card'.redacted == (card.redacted || IsHidden(rd, raw))
  {
    card' := card;
    if rd.hidden(raw) || rd.redacted(raw) {
      card' := Card(if field in card.fields then card.fields else card.fields[field := None], true);
    } else if Strip(raw) != [] {
      card' := card.(fields := card.fields[field := Some(rd.store(field, raw))]);
    }
  }

  /** `setdefault(role, {})`. */
  method OpenCard(rd: Reader, b: Book, slot: Slot, raw: string, ghost ms: seq<Mention>) returns (b': Book)
    requires BookAgrees(rd, ms, b)
    ensures b'.order == FirstOccurrences(RolesOf(ms + [Mention(slot, raw)]))
    ensures forall r :: r in b'.cards <==> r in b'.order
    ensures slot.role in b'.cards && slot.role in b'.order && CardsAgree(rd, ms, b')
  {
    RolesOfSnoc(ms, Mention(slot, raw));
    FirstOccurrencesSnoc(RolesOf(ms), slot.role);
    FirstOccurrencesMember(RolesOf(ms), slot.role);
    if slot.role in b.cards {
      b' := b;
    } else {
      UnmentionedIsEmpty(rd, ms, slot.role);
      b' := Book(b.order + [slot.role], b.cards[slot.role := Card(map[], false)]);
    }
  }

  lemma RolesOfSnoc(ms: seq<Mention>, m: Mention)
    ensures RolesOf(ms + [m]) == RolesOf(ms) + [m.slot.role]
  {
    assert (ms + [m])[..|ms|] == ms;
  }

  lemma {:induction false} UnmentionedHasNoField(rd: Reader, ms: seq<Mention>, slot: Slot)
    requires slot.role !in RolesOf(ms)
    ensures FieldOf(rd, ms, slot).None?
  {
    if ms != [] {
      UnmentionedHasNoField(rd, ms[..|ms| - 1], slot);
    }
  }

  lemma {:induction false} MentionedRole(ms: seq<Mention>, m: Mention)
    requires m in ms
    ensures m.slot.role in RolesOf(ms)
  {
    if m != ms[|ms| - 1] {
      assert ms == ms[..|ms| - 1] + [ms[|ms| - 1]];
      MentionedRole(ms[..|ms| - 1], m);
    }
  }

  lemma UnmentionedIsEmpty(rd: Reader, ms: seq<Mention>, role: Role)
    requires role !in RolesOf(ms)
    ensures forall f :: FieldOf(rd, ms, Slot(role, f)).None?
    ensures !HidesSomething(rd, ms, role)
  {
    forall f ensures FieldOf(rd, ms, Slot(role, f)).None? {
      UnmentionedHasNoField(rd, ms, Slot(role, f));
    }
    forall m | m in ms ensures m.slot.role != role {
      MentionedRole(ms, m);
    }
  }

  lemma FieldOfSnoc(rd: Reader, ms: seq<Mention>, m: Mention, slot: Slot)
    ensures FieldOf(rd, ms + [m], slot)
         == if m.slot == slot && IsShown(rd, m.raw) then Some(rd.store(slot.field, m.raw)) else FieldOf(rd, ms, slot)
  {
    assert (ms + [m])[..|ms|] == ms;
  }

  lemma HidesSnoc(rd: Reader, ms: seq<Mention>, m: Mention, role: Role)
    ensures HidesSomething(rd, ms + [m], role)
        <==> HidesSomething(rd, ms, role) || (m.slot.role == role && IsHidden(rd, m.raw))
  {
    if HidesSomething(rd, ms, role) {
      var w :| w in ms && w.slot.role == role && IsHidden(rd, w.raw);
      assert w in ms + [m];
    }
    assert m in ms + [m];
  }

  /** Every card of the book says of its role what the mentions say. */
  ghost predicate CardsAgree(rd: Reader, ms: seq<Mention>, b: Book) {
    forall r :: r in b.cards ==> CardAgrees(rd, ms, r, b.cards[r])
  }

  ghost predicate CardAgrees(rd: Reader, ms: seq<Mention>, r: Role, card: Card) {
    && (forall f :: card.Get(f) == FieldOf(rd, ms, Slot(r, f)))
    && card.redacted == HidesSomething(rd, ms, r)
  }

  /** The card of another role is not touched by a mention. */
  lemma OtherCard(rd: Reader, ms: seq<Mention>, m: Mention, r: Role, card: Card)
    requires CardAgrees(rd, ms, r, card) && r != m.slot.role
    ensures CardAgrees(rd, ms + [m], r, card)
  {
    forall f ensures card.Get(f) == FieldOf(rd, ms + [m], Slot(r, f)) {
      FieldOfSnoc(rd, ms, m, Slot(r, f));
    }
    HidesSnoc(rd, ms, m, r);
  }

  /** The card of the mentioned role, filled in. */
  lemma MentionedCard(rd: Reader, ms: seq<Mention>, m: Mention, before: Card, card: Card)
    requires CardAgrees(rd, ms, m.slot.role, before)
    requires forall f :: card.Get(f) == (if f == m.slot.field && IsShown(rd, m.raw) then Some(rd.store(f, m.raw))
                                         else before.Get(f))
    requires card.redacted == (before.redacted || IsHidden(rd, m.raw))
    ensures CardAgrees(rd, ms + [m], m.slot.role, card)
  {
    forall f ensures card.Get(f) == FieldOf(rd, ms + [m], Slot(m.slot.role, f)) {
      FieldOfSnoc(rd, ms, m, Slot(m.slot.role, f));
    }
    HidesSnoc(rd, ms, m, m.slot.role);
  }

  /** Storing the card of the mentioned role brings the book up to date. */
  lemma CardStep(rd: Reader, ms: seq<Mention>, m: Mention, b: Book, card: Card)
    requires m.slot.role in b.cards && CardsAgree(rd, ms, b)
    requires CardAgrees(rd, ms + [m], m.slot.role, card)
    ensures CardsAgree(rd, ms + [m], b.(cards := b.cards[m.slot.role := card]))
  {
    forall r | r in b.cards && r != m.slot.role ensures CardAgrees(rd, ms + [m], r, b.cards[r]) {
      OtherCard(rd, ms, m, r, b.cards[r]);
    }
  }

  /** A text a contact field keeps is never blank and never a privacy placeholder. */
  ghost predicate KeepsSecrets(rd: Reader) {
    forall f, raw :: IsShown(rd, raw) ==> rd.store(f, raw) != [] && !rd.hidden(rd.store(f, raw))
  }

  lemma {:induction false} FieldsKeepSecrets(rd: Reader, ms: seq<Mention>, slot: Slot)
    requires KeepsSecrets(rd) && FieldOf(rd, ms, slot).Some?
    ensures FieldOf(rd, ms, slot).value != [] && !rd.hidden(FieldOf(rd, ms, slot).value)
  {
    var m := ms[|ms| - 1];
    if !(m.slot == slot && IsShown(rd, m.raw)) {
      FieldsKeepSecrets(rd, ms[..|ms| - 1], slot);
    }
  }

  /** The contact `_finalize_contacts` makes of one card, before it decides whether to drop it. */
  method CardToContact(rd: Reader, ghost ms: seq<Mention>, role: Role, card: Card) returns (c: Contact)
    requires KeepsSecrets(rd)
    requires CardAgrees(rd, ms, role, card)
    ensures c == ContactOf(rd, ms, role)
  {
    var name, redacted := card.Get(Name), card.redacted;
    if name.Some? {
      FieldsKeepSecrets(rd, ms, Slot(role, Name));
      if rd.hidden(name.value) {
        redacted := true;
      }
    }
    c := Contact(role, name, card.Get(Organization), card.Get(Email), card.Get(Phone), card.Get(Country), redacted);
  }

  lemma ContactsSnoc(rd: Reader, ms: seq<Mention>, roles: seq<Role>, i: nat)
    requires i < |roles|
    ensures var before, c := ContactsOf(rd, ms, roles[..i]), ContactOf(rd, ms, roles[i]);
            && (c.IsEmpty() ==> ContactsOf(rd, ms, roles[..i + 1]) == before)
            && (!c.IsEmpty() ==> ContactsOf(rd, ms, roles[..i + 1]) == before + [c])
  {
    assert roles[..i + 1][..i] == roles[..i];
    var before := ContactsOf(rd, ms, roles[..i]);
    assert before + [] == before;
  }

  /** `_finalize_contacts`. */
  method FinalizeContacts(rd: Reader, b: Book, ghost ms: seq<Mention>) returns (out: seq<Contact>)
    requires KeepsSecrets(rd) && BookAgrees(rd, ms, b)
    ensures out == ContactsOf(rd, ms, FirstOccurrences(RolesOf(ms)))
  {
    out := [];
    for i := 0 to |b.order|
      invariant out == ContactsOf(rd, ms, b.order[..i])
    {
      var role := b.order[i];
      assert role in b.order;
      var c := CardToContact(rd, ms, role, b.cards[role]);
      ContactsSnoc(rd, ms, b.order, i);
      if !c.IsEmpty() {
        out := out + [c];
      }
    }
    assert b.order[..|b.order|] == b.order;
  }

  // ---------------------------------------------------------------------------
  // The loop
  // ---------------------------------------------------------------------------

  /** The variables of the loop; `inBlock` is whether the pending list is set. */
  datatype State = State(expires: Option<int>, created: Option<int>, updated: Option<int>, registrar: Option<string>,
                         status: seq<string>, servers: seq<string>, book: Book, inBlock: bool)

  /** Every variable is the function of the lines that describes it. */
  ghost predicate Agrees(rd: Reader, v: Vocabulary, lines: seq<Line>, s: State) {
    && s.expires == FirstParsed(rd.date, Values(rd, v.expiry, lines))
    && s.created == FirstParsed(rd.date, Values(rd, v.created, lines))
    && s.updated == FirstParsed(rd.date, Values(rd, v.updated, lines))
    && s.registrar == First(Values(rd, v.registrar, lines))
    && s.status == Map(rd.cleanStatus, Values(rd, v.status, lines))
    && s.servers == FirstOccurrences(Servers(rd, v, lines))
    && BookAgrees(rd, Mentions(rd, lines), s.book)
    && s.inBlock == InBlock(rd, v, lines)
  }

  function NextDate(rd: Reader, keys: set<string>, d: Option<int>, l: Line): Option<int> {
    if d.None? && Reads(rd, keys, l) then rd.date(l.raw) else d
  }

  function NextServers(servers: seq<string>, name: Option<string>): seq<string> {
    if name.Some? && name.value != [] && name.value !in servers then servers + [name.value] else servers
  }

  /** What one turn of the loop does to each variable, with the tests for the other fields taken out. */
  ghost predicate Turns(rd: Reader, v: Vocabulary, before: seq<Line>, s: State, l: Line, s': State) {
    && s'.expires == NextDate(rd, v.expiry, s.expires, l)
    && s'.created == NextDate(rd, v.created, s.created, l)
    && s'.updated == NextDate(rd, v.updated, s.updated, l)
    && s'.registrar == (if s.registrar.None? && Reads(rd, v.registrar, l) then Some(l.raw) else s.registrar)
    && s'.status == s.status + (if Reads(rd, v.status, l) then [rd.cleanStatus(l.raw)] else [])
    && s'.servers == NextServers(s.servers, ServerAt(rd, v, before, l))
    && BookAgrees(rd, Mentions(rd, before) + MentionAt(rd, l), s'.book)
    && s'.inBlock == (Opens(rd, v, l) || (s.inBlock && (l.Plain? || l.Indented?)))
  }

  /** The cascade over the plain fields. */
  method ReadField(rd: Reader, v: Vocabulary, s: State, key: string, value: string) returns (s': State)
    requires Distinct(v) && value != []
    ensures s'.expires == (if s.expires.None? && key in v.expiry then rd.date(value) else s.expires)
    ensures s'.created == (if s.created.None? && key in v.created then rd.date(value) else s.created)
    ensures s'.updated == (if s.updated.None? && key in v.updated then rd.date(value) else s.updated)
    ensures s'.registrar == (if s.registrar.None? && key in v.registrar then Some(value) else s.registrar)
    ensures s'.status == s.status + (if key in v.status then [rd.cleanStatus(value)] else [])
    ensures s'.servers == NextServers(s.servers, if key in v.servers then Some(rd.cleanServer(value)) else None)
    ensures s'.book == s.book && s'.inBlock == s.inBlock
  {
    s' := s;
    if key in v.expiry && s.expires.None? {
      s' := s.(expires := rd.date(value));
    } else if key in v.created && s.created.None? {
      s' := s.(created := rd.date(value));
    } else if key in v.updated && s.updated.None? {
      s' := s.(updated := rd.date(value));
    } else if key in v.registrar && s.registrar.None? {
      s' := s.(registrar := Some(value));
    } else if key in v.status {
      s' := s.(status := s.status + [rd.cleanStatus(value)]);
    } else if key in v.servers {
      var ns := rd.cleanServer(value);
      if ns != [] && ns !in s.servers {
        s' := s.(servers := s.servers + [ns]);
      }
    }
  }

  /** The body of the loop behind a match of the `key: value` pattern. */
  method TurnPair(rd: Reader, v: Vocabulary, ghost before: seq<Line>, s: State, key: string, raw: string)
      returns (s': State)
    requires Distinct(v) && BookAgrees(rd, Mentions(rd, before), s.book)
    ensures Turns(rd, v, before, s, Pair(key, raw), s')
  {
    if rd.contact(key).Some? {
      s' := TurnContact(rd, v, before, s, key, raw);
    } else {
      s' := TurnField(rd, v, before, s, key, raw);
    }
  }

  /** A contact field. */
  method TurnContact(rd: Reader, v: Vocabulary, ghost before: seq<Line>, s: State, key: string, raw: string)
      returns (s': State)
    requires rd.contact(key).Some? && BookAgrees(rd, Mentions(rd, before), s.book)
    ensures Turns(rd, v, before, s, Pair(key, raw), s')
  {
    var book := Absorb(rd, s.book, rd.contact(key).value, raw, Mentions(rd, before));
    NoMention(Mentions(rd, before));
    s' := s.(inBlock := false, book := book);
  }

  /** Any other field; a placeholder counts as no value. */
  method TurnField(rd: Reader, v: Vocabulary, ghost before: seq<Line>, s: State, key: string, raw: string)
      returns (s': State)
    requires Distinct(v) && rd.contact(key).None? && BookAgrees(rd, Mentions(rd, before), s.book)
    ensures Turns(rd, v, before, s, Pair(key, raw), s')
  {
    var closed := s.(inBlock := false);
    NoMention(Mentions(rd, before));
    if raw == [] || rd.redacted(raw) {
      s' := closed.(inBlock := key in v.servers);
    } else {
      s' := ReadField(rd, v, closed, key, raw);
    }
  }

  lemma NoMention(ms: seq<Mention>)
    ensures ms + [] == ms
  {
  }

  /** The body of the loop for an indented line without a key. */
  method TurnIndented(rd: Reader, v: Vocabulary, ghost before: seq<Line>, s: State, text: string) returns (s': State)
    requires s.inBlock == InBlock(rd, v, before) && BookAgrees(rd, Mentions(rd, before), s.book)
    ensures Turns(rd, v, before, s, Indented(text), s')
  {
    NoMention(Mentions(rd, before));
    s' := s;
    if s.inBlock {
      var ns := rd.cleanServer(text);
      if ns != [] && ns !in s.servers {
        s' := s.(servers := s.servers + [ns]);
      }
    }
  }

  /** A line that says nothing; only a break ends a block. */
  lemma QuietLine(rd: Reader, v: Vocabulary, before: seq<Line>, s: State, l: Line)
    requires (l.Break? || l.Plain?) && BookAgrees(rd, Mentions(rd, before), s.book)
    ensures Turns(rd, v, before, s, l, s.(inBlock := s.inBlock && l.Plain?))
  {
    NoMention(Mentions(rd, before));
  }

  /** The body of the loop. */
  method Turn(rd: Reader, v: Vocabulary, ghost before: seq<Line>, s: State, l: Line) returns (s': State)
    requires Distinct(v) && s.inBlock == InBlock(rd, v, before) && BookAgrees(rd, Mentions(rd, before), s.book)
    ensures Turns(rd, v, before, s, l, s')
  {
    match l
    case Break =>
      QuietLine(rd, v, before, s, l);
      s' := s.(inBlock := false);
    case Plain =>
      QuietLine(rd, v, before, s, l);
      s' := s;
    case Indented(text) =>
      s' := TurnIndented(rd, v, before, s, text);
    case Pair(key, raw) =>
      s' := TurnPair(rd, v, before, s, key, raw);
  }

  lemma ValuesSnoc(rd: Reader, keys: set<string>, lines: seq<Line>, l: Line)
    ensures Values(rd, keys, lines + [l]) == Values(rd, keys, lines) + if Reads(rd, keys, l) then [l.raw] else []
  {
    assert (lines + [l])[..|lines|] == lines;
  }

  lemma FirstParsedSnoc(date: string -> Option<int>, values: seq<string>, x: string)
    ensures FirstParsed(date, values + [x])
         == if FirstParsed(date, values).Some? then FirstParsed(date, values) else date(x)
  {
    assert (values + [x])[..|values|] == values;
  }

  lemma DateStep(rd: Reader, keys: set<string>, lines: seq<Line>, l: Line)
    ensures FirstParsed(rd.date, Values(rd, keys, lines + [l]))
         == NextDate(rd, keys, FirstParsed(rd.date, Values(rd, keys, lines)), l)
  {
    var values := Values(rd, keys, lines);
    ValuesSnoc(rd, keys, lines, l);
    if Reads(rd, keys, l) {
      FirstParsedSnoc(rd.date, values, l.raw);
    } else {
      assert values + [] == values;
    }
  }

  lemma RegistrarStep(rd: Reader, keys: set<string>, lines: seq<Line>, l: Line)
    ensures First(Values(rd, keys, lines + [l]))
         == if First(Values(rd, keys, lines)).None? && Reads(rd, keys, l) then Some(l.raw)
            else First(Values(rd, keys, lines))
  {
    ValuesSnoc(rd, keys, lines, l);
  }

  lemma StatusStep(rd: Reader, keys: set<string>, lines: seq<Line>, l: Line)
    ensures Map(rd.cleanStatus, Values(rd, keys, lines + [l]))
         == Map(rd.cleanStatus, Values(rd, keys, lines)) + if Reads(rd, keys, l) then [rd.cleanStatus(l.raw)] else []
  {
    var values := Values(rd, keys, lines);
    ValuesSnoc(rd, keys, lines, l);
    if Reads(rd, keys, l) {
      assert (values + [l.raw])[..|values|] == values;
    } else {
      assert values + [] == values;
    }
  }

  lemma ServersStep(rd: Reader, v: Vocabulary, lines: seq<Line>, l: Line)
    ensures FirstOccurrences(Servers(rd, v, lines + [l]))
         == NextServers(FirstOccurrences(Servers(rd, v, lines)), ServerAt(rd, v, lines, l))
  {
    var servers, name := Servers(rd, v, lines), ServerAt(rd, v, lines, l);
    assert (lines + [l])[..|lines|] == lines;
    if name.Some? && name.value != [] {
      FirstOccurrencesSnoc(servers, name.value);
      FirstOccurrencesMember(servers, name.value);
    } else {
      assert servers + [] == servers;
    }
  }

  lemma ContinuesSnoc(lines: seq<Line>, l: Line)
    ensures Continues(lines + [l]) <==> Continues(lines) && (l.Plain? || l.Indented?)
  {
    var all := lines + [l];
    assert all[|lines|] == l;
    if Continues(all) {
      forall m | 0 <= m < |lines| ensures lines[m].Plain? || lines[m].Indented? {
        assert all[m] == lines[m];
      }
    }
  }

  lemma BlockOpens(rd: Reader, v: Vocabulary, lines: seq<Line>, l: Line)
    requires Opens(rd, v, l)
    ensures InBlock(rd, v, lines + [l])
  {
    var all := lines + [l];
    assert all[|lines|] == l && Continues(all[|lines| + 1..]);
  }

  lemma TailOfSnoc(lines: seq<Line>, l: Line, j: nat)
    requires j < |lines|
    ensures (lines + [l])[j] == lines[j] && (lines + [l])[j + 1..] == lines[j + 1..] + [l]
  {
  }

  lemma BlockStaysOpen(rd: Reader, v: Vocabulary, lines: seq<Line>, l: Line)
    requires InBlock(rd, v, lines) && (l.Plain? || l.Indented?)
    ensures InBlock(rd, v, lines + [l])
  {
    var j :| 0 <= j < |lines| && Opens(rd, v, lines[j]) && Continues(lines[j + 1..]);
    TailOfSnoc(lines, l, j);
    ContinuesSnoc(lines[j + 1..], l);
    assert Opens(rd, v, (lines + [l])[j]);
  }

  lemma BlockWasOpen(rd: Reader, v: Vocabulary, lines: seq<Line>, l: Line)
    requires InBlock(rd, v, lines + [l])
    ensures Opens(rd, v, l) || (InBlock(rd, v, lines) && (l.Plain? || l.Indented?))
  {
    var all := lines + [l];
    var j :| 0 <= j < |all| && Opens(rd, v, all[j]) && Continues(all[j + 1..]);
    if j < |lines| {
      TailOfSnoc(lines, l, j);
      ContinuesSnoc(lines[j + 1..], l);
      assert Opens(rd, v, lines[j]);
    }
  }

  lemma BlockStep(rd: Reader, v: Vocabulary, lines: seq<Line>, l: Line)
    ensures InBlock(rd, v, lines + [l]) <==> Opens(rd, v, l) || (InBlock(rd, v, lines) && (l.Plain? || l.Indented?))
  {
    if InBlock(rd, v, lines + [l]) {
      BlockWasOpen(rd, v, lines, l);
    }
    if Opens(rd, v, l) {
      BlockOpens(rd, v, lines, l);
    } else if InBlock(rd, v, lines) && (l.Plain? || l.Indented?) {
      BlockStaysOpen(rd, v, lines, l);
    }
  }

  lemma MentionsSnoc(rd: Reader, lines: seq<Line>, l: Line)
    ensures Mentions(rd, lines + [l]) == Mentions(rd, lines) + MentionAt(rd, l)
  {
    assert (lines + [l])[..|lines|] == lines;
  }

  /** One turn keeps every variable equal to its description. */
  lemma TurnKeepsAgreement(rd: Reader, v: Vocabulary, lines: seq<Line>, s: State, l: Line, s': State)
    requires Agrees(rd, v, lines, s) && Turns(rd, v, lines, s, l, s')
    ensures Agrees(rd, v, lines + [l], s')
  {
    DateStep(rd, v.expiry, lines, l);
    DateStep(rd, v.created, lines, l);
    DateStep(rd, v.updated, lines, l);
    RegistrarStep(rd, v.registrar, lines, l);
    StatusStep(rd, v.status, lines, l);
    ServersStep(rd, v, lines, l);
    BlockStep(rd, v, lines, l);
    MentionsSnoc(rd, lines, l);
  }

  lemma NothingRead(rd: Reader, v: Vocabulary)
    ensures Agrees(rd, v, [], State(None, None, None, None, [], [], Book([], map[]), false))
  {
  }

  lemma PrefixGrows(lines: seq<Line>, i: nat)
    requires i < |lines|
    ensures lines[..i + 1] == lines[..i] + [lines[i]]
  {
  }

  lemma WholePrefix(lines: seq<Line>)
    ensures lines[..0] == [] && lines[..|lines|] == lines
  {
  }

  /** One turn of the loop, with what it keeps. */
  method ReadLine(rd: Reader, v: Vocabulary, lines: seq<Line>, i: nat, s: State) returns (s': State)
    requires Distinct(v) && i < |lines| && Agrees(rd, v, lines[..i], s)
    ensures Agrees(rd, v, lines[..i + 1], s')
  {
    PrefixGrows(lines, i);
    s' := Turn(rd, v, lines[..i], s, lines[i]);
    TurnKeepsAgreement(rd, v, lines[..i], s, lines[i], s');
  }

  /** The loop of `parse_whois_text` over the classified lines. */
  method ReadLines(rd: Reader, v: Vocabulary, lines: seq<Line>) returns (s: State)
    requires Distinct(v)
    ensures Agrees(rd, v, lines, s)
  {
    s := State(None, None, None, None, [], [], Book([], map[]), false);
    NothingRead(rd, v);
    WholePrefix(lines);
    for i := 0 to |lines|
      invariant Agrees(rd, v, lines[..i], s)
    {
      s := ReadLine(rd, v, lines, i, s);
    }
  }
}
