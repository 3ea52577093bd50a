/**
 The WHOIS text parser on text: the `key: value` pattern, the vocabularies, the contact keys and the privacy
 placeholders of src/whois/parser.py, and what the whole parser returns. The date parser is a parameter.
 */
module WhoisParser {
  import opened Sequences
  import opened Text
  import opened WhoisText

  const EXPIRY_KEYS: set<string> := {"expiration date", "expires", "expires on", "expire", "expiry date", "expire date",
                                     "registry expiry date", "registrar registration expiration date", "renewal date",
                                     "paid-till"}

  const CREATED_KEYS: set<string> := {"creation date", "created", "created on", "registered", "registered on",
                                      "registration date", "registration time", "domain created", "domain registered"}

  const UPDATED_KEYS: set<string> := {"updated date", "last updated", "last update", "last modified", "modified",
                                      "changed", "last modification date"}

  const REGISTRAR_KEYS: set<string> := {"registrar", "sponsoring registrar", "registrar name", "registrar.organization",
                                        "current registrar"}

  const STATUS_KEYS: set<string> := {"status", "domain status", "state"}

  const SERVER_KEYS: set<string> := {"name server", "nserver", "nameserver", "name servers", "nameservers",
                                     "primary name server", "secondary name server"}

  const VOCABULARY := Vocabulary(EXPIRY_KEYS, CREATED_KEYS, UPDATED_KEYS, REGISTRAR_KEYS, STATUS_KEYS, SERVER_KEYS)

  const REDACTED_VALUES: set<string> := {"redacted for privacy", "redacted", "not disclosed", "data protected",
                                         "privacy protect"}

  const PRIVACY_TOKENS: set<string> := REDACTED_VALUES + {"private person", "gdpr masked", "personal data",
                                                          "withheld for privacy"}

  const NOT_FOUND_PATTERNS: set<string> := {"no match for", "no match found", "not found", "no entries found",
                                            "no data found", "domain not found", "no such domain", "status: free",
                                            "status: available", "no information available",
                                            "domain status: available", "available for registration"}

  const ROLE_PREFIXES: map<string, Role> := map["registrant" := Registrant, "admin" := Admin, "administrative" := Admin,
                                                "tech" := Tech, "technical" := Tech, "billing" := Billing]

  const FIELD_NAMES: map<string, Field> := map["name" := Name, "organization" := Organization, "org" := Organization,
                                               "email" := Email, "e-mail" := Email, "phone" := Phone, "tel" := Phone,
                                               "telephone" := Phone, "country" := Country, "name (raw)" := Name,
                                               "holder" := Name]

  const RU_REGISTRANT_KEYS: map<string, Field> := map["org" := Organization, "person" := Name, "e-mail" := Email,
                                                      "phone" := Phone]

  /** Length and first two letters tell the fields of two keys apart. */
  function Shape(key: string): (int, char, char) {
    if |key| < 2 then (0, ' ', ' ') else (|key|, key[0], key[1])
  }

  const EXPIRY_SHAPES: set<(int, char, char)> := {(6, 'e', 'x'), (7, 'e', 'x'), (9, 'p', 'a'), (10, 'e', 'x'),
                                                  (11, 'e', 'x'), (12, 'r', 'e'), (15, 'e', 'x'), (20, 'r', 'e'),
                                                  (38, 'r', 'e')}

  const CREATED_SHAPES: set<(int, char, char)> := {(7, 'c', 'r'), (10, 'c', 'r'), (10, 'r', 'e'), (13, 'c', 'r'),
                                                   (13, 'r', 'e'), (14, 'd', 'o'), (17, 'd', 'o'), (17, 'r', 'e')}

  const UPDATED_SHAPES: set<(int, char, char)> := {(7, 'c', 'h'), (8, 'm', 'o'), (11, 'l', 'a'), (12, 'l', 'a'),
                                                   (12, 'u', 'p'), (13, 'l', 'a'), (22, 'l', 'a')}

  const REGISTRAR_SHAPES: set<(int, char, char)> := {(9, 'r', 'e'), (14, 'r', 'e'), (17, 'c', 'u'), (20, 's', 'p'),
                                                     (22, 'r', 'e')}

  const STATUS_SHAPES: set<(int, char, char)> := {(5, 's', 't'), (6, 's', 't'), (13, 'd', 'o')}

  const SERVER_SHAPES: set<(int, char, char)> := {(7, 'n', 's'), (10, 'n', 'a'), (11, 'n', 'a'), (12, 'n', 'a'),
                                                  (19, 'p', 'r'), (21, 's', 'e')}

  /** Which field a key belongs to, judged by its shape. */
  function FieldNumber(key: string): int {
    var shape := Shape(key);
    if shape in EXPIRY_SHAPES then 0
    else if shape in CREATED_SHAPES then 1
    else if shape in UPDATED_SHAPES then 2
    else if shape in REGISTRAR_SHAPES then 3
    else if shape in STATUS_SHAPES then 4
    else if shape in SERVER_SHAPES then 5
    else 6
  }

  lemma ExpiryNumber()
    ensures forall k :: k in EXPIRY_KEYS ==> FieldNumber(k) == 0
  {
  }

  lemma CreatedNumber()
    ensures forall k :: k in CREATED_KEYS ==> FieldNumber(k) == 1
  {
  }

  lemma UpdatedNumber()
    ensures forall k :: k in UPDATED_KEYS ==> FieldNumber(k) == 2
  {
  }

  lemma RegistrarNumber()
    ensures forall k :: k in REGISTRAR_KEYS ==> FieldNumber(k) == 3
  {
  }

  lemma StatusNumber()
    ensures forall k :: k in STATUS_KEYS ==> FieldNumber(k) == 4
  {
  }

  lemma ServerNumber()
    ensures forall k :: k in SERVER_KEYS ==> FieldNumber(k) == 5
  {
  }

  lemma DistinctByNumber(v: Vocabulary, number: string -> int)
    requires (forall k :: k in v.expiry ==> number(k) == 0) && (forall k :: k in v.created ==> number(k) == 1)
    requires (forall k :: k in v.updated ==> number(k) == 2) && (forall k :: k in v.registrar ==> number(k) == 3)
    requires (forall k :: k in v.status ==> number(k) == 4) && (forall k :: k in v.servers ==> number(k) == 5)
    ensures Distinct(v)
  {
  }

  /** No key of the six vocabularies stands for two fields. */
  lemma VocabularyIsDistinct()
    ensures Distinct(VOCABULARY)
  {
    ExpiryNumber();
    CreatedNumber();
    UpdatedNumber();
    RegistrarNumber();
    StatusNumber();
    ServerNumber();
    DistinctByNumber(VOCABULARY, FieldNumber);
  }

  // ---------------------------------------------------------------------------
  // Lines
  // ---------------------------------------------------------------------------

  predicate IsLetter(c: char) {
    'a' <= c <= 'z' || 'A' <= c <= 'Z'
  }

  predicate IsKeyChar(c: char) {
    IsLetter(c) || '0' <= c <= '9' || c in " _-/."
  }

  /** The `key: value` pattern: the key is what stands before the first colon, without outer blanks. */
  function KeyValue(line: string): Option<(string, string)> {
    var start := SkipFrom(line, 0, IsSpace);
    var colon := Find(line, start, IsColon);
    var key := TrimRight(line[start..colon], IsSpace);
    if colon < |line| && key != [] && IsLetter(key[0]) && (forall c :: c in key ==> IsKeyChar(c))
    then Some((key, line[colon + 1..])) else None
  }

  predicate IsComment(stripped: string) {
    StartsWith(stripped, "%") || StartsWith(stripped, "#") || StartsWith(stripped, ">>>")
  }

  function Classify(line: string): Line {
    var stripped, pair := Strip(line), KeyValue(line);
    if stripped == [] || IsComment(stripped) then Break
    else if pair.Some? then Pair(Lower(pair.value.0), Strip(pair.value.1))
    else if StartsWith(line, " ") || StartsWith(line, "\t") then Indented(stripped)
    else Plain
  }

  // ---------------------------------------------------------------------------
  // Values
  // ---------------------------------------------------------------------------

  /** `_looks_like_redacted`. */
  predicate IsRedacted(value: string) {
    Lower(Strip(value)) in REDACTED_VALUES
  }

  /** `_looks_like_privacy_value`. */
  predicate IsPrivate(value: string) {
    Lower(Strip(value)) in PRIVACY_TOKENS
  }

  predicate IsUrl(value: string) {
    StartsWith(Lower(value), "http://") || StartsWith(Lower(value), "https://")
  }

  /** `value.split()[0]`, of a value that does not start with a blank. */
  function FirstWord(value: string): string {
    value[..Find(value, 0, IsSpace)]
  }

  function CleanServer(value: string): string {
    Lower(DropDots(FirstWord(value)))
  }

  function Upper(s: string): (r: string)
    ensures |r| == |s|
  {
    seq(|s|, i requires 0 <= i < |s| => if 'a' <= s[i] <= 'z' then s[i] - 'a' + 'A' else s[i])
  }

  /** What a contact field keeps: short country names become upper-case codes. */
  function Store(f: Field, raw: string): string {
    var cleaned := Strip(raw);
    if f == Country && 2 <= |cleaned| <= 3 then Upper(cleaned) else cleaned
  }

  lemma TokensAreLong()
    ensures forall t :: t in PRIVACY_TOKENS ==> |t| > 3
  {
  }

  lemma ShortIsNotPrivate(value: string)
    requires |value| <= 3
    ensures !IsPrivate(value)
  {
    TokensAreLong();
    assert |Lower(Strip(value))| <= 3;
  }

  lemma StrippedIsAsPrivate(value: string)
    ensures IsPrivate(Strip(value)) == IsPrivate(value)
  {
    StripIsStable(value);
    StripOfStable(Strip(value));
  }

  lemma StoreKeepsSecrets(f: Field, raw: string)
    requires Strip(raw) != [] && !IsPrivate(raw)
    ensures Store(f, raw) != [] && !IsPrivate(Store(f, raw))
  {
    var cleaned := Strip(raw);
    if f == Country && 2 <= |cleaned| <= 3 {
      ShortIsNotPrivate(Upper(cleaned));
    } else {
      StrippedIsAsPrivate(raw);
    }
  }

  // ---------------------------------------------------------------------------
  // Contact keys
  // ---------------------------------------------------------------------------

  predicate IsBlank(c: char) {
    c == ' '
  }

  /** The role and field around the first separator, when both are known. */
  function SplitAt(key: string, separator: char -> bool, roles: map<string, Role>, fields: map<string, Field>)
      : Option<Slot>
  {
    var k := Find(key, 0, separator);
    if k == |key| then None else SlotOf(Strip(key[..k]), Strip(key[k + 1..]), roles, fields)
  }

  function SlotOf(before: string, after: string, roles: map<string, Role>, fields: map<string, Field>): Option<Slot> {
    if before in roles && after in fields then Some(Slot(roles[before], fields[after])) else None
  }

  /** `_split_contact_key`: a dot is tried before a blank. */
  function SplitContactKey(key: string, roles: map<string, Role>, fields: map<string, Field>): Option<Slot> {
    var byDot := SplitAt(key, IsDot, roles, fields);
    if byDot.Some? then byDot else SplitAt(key, IsBlank, roles, fields)
  }

  /** The recognition of a contact key at the head of `_try_absorb_contact_field`. */
  function ContactKey(ruLike: bool, key: string): Option<Slot> {
    Recognise(SplitContactKey(key, ROLE_PREFIXES, FIELD_NAMES), ruLike, key)
  }

  function Recognise(split: Option<Slot>, ruLike: bool, key: string): Option<Slot> {
    if split.None? && ruLike && key in RU_REGISTRANT_KEYS then Some(Slot(Registrant, RU_REGISTRANT_KEYS[key]))
    else if split.None? && key in {"registrant", "holder", "registrant holder"}
    then Some(Slot(Registrant, Organization))
    else split
  }

  predicate EndsWith(s: string, suffix: string) {
    |suffix| <= |s| && s[|s| - |suffix|..] == suffix
  }

  predicate IsRuLike(domain: string) {
    EndsWith(Lower(domain), ".ru") || EndsWith(Lower(domain), ".su") || EndsWith(Lower(domain), ".xn--p1ai")
  }

  function ReaderOf(ruLike: bool, date: string -> Option<int>): Reader {
    Reader(key => ContactKey(ruLike, key), IsUrl, IsPrivate, Store, IsRedacted, date, FirstWord, CleanServer)
  }

  lemma ReaderKeepsSecrets(ruLike: bool, date: string -> Option<int>)
    ensures KeepsSecrets(ReaderOf(ruLike, date))
  {
    var rd := ReaderOf(ruLike, date);
    forall f, raw | IsShown(rd, raw) ensures rd.store(f, raw) != [] && !rd.hidden(rd.store(f, raw)) {
      StoreKeepsSecrets(f, raw);
    }
  }

  lemma FindBehind(key: string, before: string, separator: char -> bool)
    requires |before| < |key| && key[..|before|] == before
    requires separator(key[|before|]) && forall c :: c in before ==> !separator(c)
    ensures Find(key, 0, separator) == |before|
  {
    assert forall i :: 0 <= i < |before| ==> key[i] == before[i] && before[i] in before;
    FindIs(key, 0, |before|, separator);
  }

  lemma SlicesAround(key: string, before: string, after: string)
    requires key == before + " " + after
    ensures |before| < |key| && key[|before|] == ' ' && key[..|before|] == before && key[|before| + 1..] == after
  {
  }

  lemma NoSplit(key: string, separator: char -> bool, roles: map<string, Role>, fields: map<string, Field>)
    requires forall c :: c in key ==> !separator(c)
    ensures SplitAt(key, separator, roles, fields).None?
  {
  }

  lemma BlankSplits(key: string, before: string, after: string, roles: map<string, Role>, fields: map<string, Field>)
    requires key == before + " " + after && ' ' !in before && StripStable(before) && StripStable(after)
    requires before in roles && after in fields
    ensures SplitAt(key, IsBlank, roles, fields) == Some(Slot(roles[before], fields[after]))
  {
    SlicesAround(key, before, after);
    FindBehind(key, before, IsBlank);
    StripOfStable(before);
    StripOfStable(after);
    SplitParts(key, |before|, before, after, IsBlank, roles, fields);
  }

  lemma SplitParts(key: string, k: nat, before: string, after: string, separator: char -> bool,
                   roles: map<string, Role>, fields: map<string, Field>)
    requires Find(key, 0, separator) == k < |key| && Strip(key[..k]) == before && Strip(key[k + 1..]) == after
    ensures SplitAt(key, separator, roles, fields) == SlotOf(before, after, roles, fields)
  {
  }

  /** A key without a dot is split at its first blank. */
  lemma DotFreeKey(key: string, before: string, after: string, roles: map<string, Role>, fields: map<string, Field>)
    requires key == before + " " + after && '.' !in key && ' ' !in before && StripStable(before) && StripStable(after)
    requires before in roles && after in fields
    ensures SplitContactKey(key, roles, fields) == Some(Slot(roles[before], fields[after]))
  {
    BlankSplits(key, before, after, roles, fields);
    NoSplit(key, IsDot, roles, fields);
  }

  lemma SplitDecides(split: Option<Slot>, ruLike: bool, key: string)
    requires split.Some?
    ensures Recognise(split, ruLike, key) == split
  {
  }

  /** A key without a dot and without a blank is not split; a special one is filed under organization. */
  lemma WholeKey(ruLike: bool, key: string)
    requires '.' !in key && ' ' !in key && key !in RU_REGISTRANT_KEYS
    requires key in {"registrant", "holder", "registrant holder"}
    ensures ContactKey(ruLike, key) == Some(Slot(Registrant, Organization))
  {
    NoSplit(key, IsDot, ROLE_PREFIXES, FIELD_NAMES);
    NoSplit(key, IsBlank, ROLE_PREFIXES, FIELD_NAMES);
  }

  lemma WholeKeysAre(key: string)
    requires key == "registrant" || key == "holder"
    ensures '.' !in key && ' ' !in key && key !in RU_REGISTRANT_KEYS
  {
    assert key[0] in "rh" && key[1] in "eo" && key[2] in "gl";
  }

  lemma HolderIsKnown()
    ensures "registrant" in ROLE_PREFIXES && ROLE_PREFIXES["registrant"] == Registrant
    ensures "holder" in FIELD_NAMES && FIELD_NAMES["holder"] == Name
  {
  }

  lemma HolderShape()
    ensures "registrant holder" == "registrant" + " " + "holder"
    ensures StripStable("registrant") && StripStable("holder")
    ensures '.' !in "registrant holder" && ' ' !in "registrant"
  {
  }

  /**
   The comment in the source (line 509) has the DENIC key filed as an organization; the split by a blank comes first
   and files it as a name.
   */
  lemma RegistrantHolderIsAName(ruLike: bool)
    ensures ContactKey(ruLike, "registrant holder") == Some(Slot(Registrant, Name))
  {
    HolderIsKnown();
    HolderShape();
    DotFreeKey("registrant holder", "registrant", "holder", ROLE_PREFIXES, FIELD_NAMES);
    SplitDecides(Some(Slot(Registrant, Name)), ruLike, "registrant holder");
  }

  /**
   Of the three keys that the source lists as organizations, exactly those without a blank are filed as one, for every
   kind of domain; the third is split first.
   */
  lemma IsOrganizationIff(ruLike: bool, key: string)
    requires key in {"registrant", "holder", "registrant holder"}
    ensures ContactKey(ruLike, key) == Some(Slot(Registrant, if ' ' in key then Name else Organization))
  {
    if key == "registrant holder" {
      assert key[10] == ' ';
      RegistrantHolderIsAName(ruLike);
    } else {
      WholeKeysAre(key);
      WholeKey(ruLike, key);
    }
  }
}
