/** The values of a frontmatter block: `_parse_value` and `_dump_value` of scripts/handoff.py. */
module FrontmatterValues {
  import opened Text
  import opened Lines

  datatype Value = Scalar(text: string) | List(items: seq<string>)

  // ---------------------------------------------------------------------------
  // Values
  // ---------------------------------------------------------------------------

  predicate IsQuote(c: char) {
    c == '\'' || c == '"'
  }

  /** `.strip("'\"")`. */
  function StripQuotes(s: string): string {
    TrimRight(TrimLeft(s, IsQuote), IsQuote)
  }

  predicate Bracketed(s: string) {
    s != [] && s[0] == '[' && s[|s| - 1] == ']'
  }

  /** Starts and ends with the same kind of quote; a single quote character does. */
  predicate Quoted(s: string) {
    s != [] && IsQuote(s[0]) && s[|s| - 1] == s[0]
  }

  /** `s[1:-1]`. */
  function Inside(s: string): string {
    if |s| <= 2 then [] else s[1..|s| - 1]
  }

  /** What an item of a list becomes: nothing when it is blank, else itself without outer blanks and quotes. */
  function ItemOf(part: string): seq<string> {
    if Strip(part) == [] then [] else [StripQuotes(Strip(part))]
  }

  /** The list comprehension over the comma-separated parts. */
  function Items(parts: seq<string>): seq<string> {
    if parts == [] then []
    else ItemOf(parts[0]) + Items(parts[1..])
  }

  function ParseValue(text: string): Value {
    ParseStripped(Strip(text))
  }

  function ParseStripped(raw: string): Value {
    if Bracketed(raw) then
      var inner := Strip(Inside(raw));
      if inner == [] then List([]) else List(Items(CommaParts(inner)))
    else if Quoted(raw) then Scalar(Inside(raw))
    else Scalar(raw)
  }

  /** `", ".join`. */
  function JoinItems(items: seq<string>): string {
    if items == [] then []
    else if |items| == 1 then items[0]
    else items[0] + "," + (" " + JoinItems(items[1..]))
  }

  function DumpValue(v: Value): string {
    match v
    case List(items) => "[" + JoinItems(items) + "]"
    case Scalar(text) => if text == [] then "\"\"" else text
  }

  /** The scalars the format can carry. */
  predicate CleanScalar(s: string) {
    && StripStable(s)
    && (s != [] ==>
          && !(s[0] == '[' && s[|s| - 1] == ']')
          && !(s[0] == '"' && s[|s| - 1] == '"') && !(s[0] == '\'' && s[|s| - 1] == '\''))
  }

  predicate CleanItem(s: string) {
    s != [] && StripStable(s) && ',' !in s && !IsQuote(s[0]) && !IsQuote(s[|s| - 1])
  }

  predicate CleanValue(v: Value) {
    match v
    case Scalar(text) => CleanScalar(text)
    case List(items) => forall i :: i in items ==> CleanItem(i)
  }

  lemma ParseStrippedScalar(raw: string)
    requires raw != []
    ensures ParseStripped(raw) == Scalar(raw) <==> !Bracketed(raw) && !Quoted(raw)
    ensures ParseStripped(raw).Scalar? ==> |ParseStripped(raw).text| <= |raw|
  {
  }

  lemma EmptyScalar()
    ensures ParseValue("\"\"") == Scalar([])
  {
    StripOfStable("\"\"");
  }

  /** A text between quotes of one kind is read as it is, without them. */
  lemma QuotedIsRead(s: string, quote: char)
    requires IsQuote(quote)
    ensures ParseValue([quote] + s + [quote]) == Scalar(s)
    ensures ParseValue("\"" + s + "\"") == ParseValue("'" + s + "'") == Scalar(s)
  {
    InQuotes(s, quote);
    InQuotes(s, '"');
    InQuotes(s, '\'');
    assert "\"" + s + "\"" == ['"'] + s + ['"'] && "'" + s + "'" == ['\''] + s + ['\''];
  }

  lemma InQuotes(s: string, quote: char)
    requires quote == '\'' || quote == '"'
    ensures ParseValue([quote] + s + [quote]) == Scalar(s)
  {
    var text := [quote] + s + [quote];
    assert text[0] == quote && text[|text| - 1] == quote && text[1..|text| - 1] == s;
    StripOfStable(text);
    QuotedScalar(text, quote);
  }

  lemma QuotedScalar(raw: string, quote: char)
    requires |raw| >= 2 && IsQuote(quote) && raw[0] == quote && raw[|raw| - 1] == quote
    ensures ParseStripped(raw) == Scalar(raw[1..|raw| - 1])
  {
  }

  /** A scalar comes back as itself exactly when it is strip-stable and delimited by neither brackets nor quotes. */
  lemma ScalarRoundTripIff(s: string)
    ensures ParseValue(DumpValue(Scalar(s))) == Scalar(s) <==> CleanScalar(s)
  {
    StripIsStable(s);
    if s == [] {
      EmptyScalar();
    } else if Strip(s) != [] {
      ParseStrippedScalar(Strip(s));
    } else {
      assert ParseStripped(Strip(s)) == Scalar([]);
    }
  }

  // ---------------------------------------------------------------------------
  // Lists
  // ---------------------------------------------------------------------------

  lemma ItemsCons(part: string, parts: seq<string>)
    ensures Items([part] + parts) == ItemOf(part) + Items(parts)
  {
    assert ([part] + parts)[1..] == parts;
  }

  /** Items only depend on the first part up to outer blanks. */
  lemma ItemsFirst(part: string, part': string, parts: seq<string>, parts': seq<string>)
    requires Strip(part) == Strip(part') && Items(parts) == Items(parts')
    ensures Items([part] + parts) == Items([part'] + parts')
  {
    ItemsCons(part, parts);
    ItemsCons(part', parts');
  }

  lemma CommaPartsCons(c: char, s: string)
    requires c != ','
    ensures CommaParts(s) != []
    ensures CommaParts([c] + s) == [[c] + CommaParts(s)[0]] + CommaParts(s)[1..]
  {
    var k := FirstComma(s);
    if k == |s| {
      LastPart(s);
      LastPart([c] + s);
    } else {
      CommaSplits(s, k);
      PartCons(c, s[..k], s[k + 1..]);
      SplitFirstPart([c] + s[..k], s[k + 1..]);
    }
  }

  lemma PartCons(c: char, part: string, rest: string)
    ensures [c] + (part + "," + rest) == ([c] + part) + "," + rest
  {
  }

  lemma CommaSplits(s: string, k: nat)
    requires k < |s| && FirstComma(s) == k
    ensures s == s[..k] + "," + s[k + 1..] && ',' !in s[..k]
    ensures CommaParts(s) == [s[..k]] + CommaParts(s[k + 1..])
  {
    CommaAt(s, k);
    SplitFirstPart(s[..k], s[k + 1..]);
  }

  lemma CommaAt(s: string, k: nat)
    requires k < |s| && s[k] == ',' && forall i :: 0 <= i < k ==> s[i] != ','
    ensures s == s[..k] + "," + s[k + 1..] && ',' !in s[..k]
  {
  }

  lemma LeadingBlank(c: char, s: string)
    requires IsSpace(c)
    ensures Items(CommaParts([c] + s)) == Items(CommaParts(s))
  {
    CommaPartsCons(c, s);
    var first, rest := CommaParts(s)[0], CommaParts(s)[1..];
    assert CommaParts(s) == [first] + rest;
    TrimLeftCons(c, first, IsSpace);
    ItemsFirst([c] + first, first, rest, rest);
  }

  lemma {:induction false} ItemsOfTrimLeft(s: string)
    ensures Items(CommaParts(TrimLeft(s, IsSpace))) == Items(CommaParts(s))
    decreases |s|
  {
    if s == [] || !IsSpace(s[0]) {
      assert TrimLeft(s, IsSpace) == s;
    } else {
      assert s == [s[0]] + s[1..];
      TrimLeftCons(s[0], s[1..], IsSpace);
      ItemsOfTrimLeft(s[1..]);
      LeadingBlank(s[0], s[1..]);
    }
  }

  lemma {:induction false} TrailingBlank(s: string, c: char)
    requires IsSpace(c)
    ensures Items(CommaParts(s + [c])) == Items(CommaParts(s))
    decreases |s|
  {
    var k := FirstComma(s);
    if k == |s| {
      LastPart(s);
      LastPart(s + [c]);
      StripSnoc(s, c);
      ItemsFirst(s + [c], s, [], []);
      assert [s] + [] == [s] && [s + [c]] + [] == [s + [c]];
    } else {
      var a, b := s[..k], s[k + 1..];
      CommaSplits(s, k);
      assert s + [c] == a + "," + (b + [c]);
      SplitFirstPart(a, b + [c]);
      TrailingBlank(b, c);
      ItemsFirst(a, a, CommaParts(b + [c]), CommaParts(b));
    }
  }

  lemma {:induction false} ItemsOfTrimRight(s: string)
    ensures Items(CommaParts(TrimRight(s, IsSpace))) == Items(CommaParts(s))
    decreases |s|
  {
    if s == [] || !IsSpace(s[|s| - 1]) {
      assert TrimRight(s, IsSpace) == s;
    } else {
      var front, c := s[..|s| - 1], s[|s| - 1];
      assert s == front + [c];
      TrimRightSnoc(front, c, IsSpace);
      ItemsOfTrimRight(front);
      TrailingBlank(front, c);
    }
  }

  predicate CommaFree(items: seq<string>) {
    forall i :: i in items ==> ',' !in i
  }

  /** Joining items with commas and reading them back is reading them one by one. */
  lemma {:induction false} ItemsOfJoined(items: seq<string>)
    requires items != [] && CommaFree(items)
    ensures Items(CommaParts(JoinItems(items))) == Items(items)
  {
    var item, rest := items[0], items[1..];
    assert item in items && items == [item] + rest;
    if |items| == 1 {
      LastPart(item);
      assert items == [item];
    } else {
      var tail := " " + JoinItems(rest);
      ItemsOfJoined(rest);
      LeadingBlank(' ', JoinItems(rest));
      assert tail == [' '] + JoinItems(rest);
      assert JoinItems(items) == item + "," + tail;
      SplitFirstPart(item, tail);
      ItemsFirst(item, item, CommaParts(tail), rest);
    }
  }

  lemma BracketShape(inner: string)
    ensures Bracketed("[" + inner + "]") && Inside("[" + inner + "]") == inner && StripStable("[" + inner + "]")
  {
  }

  lemma ParseBracketed(d: string, inner: string)
    requires Bracketed(d) && Inside(d) == inner && StripStable(d)
    ensures ParseValue(d) == if Strip(inner) == [] then List([]) else List(Items(CommaParts(Strip(inner))))
  {
    StripOfStable(d);
  }

  lemma NoItems(s: string)
    requires s == []
    ensures Items(CommaParts(s)) == []
  {
    LastPart(s);
    ItemsCons(s, []);
    assert [s] + [] == [s] && Strip(s) == [];
  }

  /** A printed list is parsed into the items between its commas. */
  lemma DumpedListParses(items: seq<string>)
    ensures ParseValue(DumpValue(List(items))) == List(Items(CommaParts(JoinItems(items))))
  {
    var inner := JoinItems(items);
    BracketShape(inner);
    ParseBracketed(DumpValue(List(items)), inner);
    ItemsOfTrimRight(TrimLeft(inner, IsSpace));
    ItemsOfTrimLeft(inner);
    if Strip(inner) == [] {
      NoItems(Strip(inner));
    }
  }

  lemma {:induction false} CommaPartsCommaFree(s: string)
    ensures CommaFree(CommaParts(s))
    decreases |s|
  {
    var k := FirstComma(s);
    if k < |s| {
      CommaSplits(s, k);
      CommaPartsCommaFree(s[k + 1..]);
    }
  }

  lemma ItemOfCommaFree(part: string)
    requires ',' !in part
    ensures CommaFree(ItemOf(part))
  {
    forall c | c in TrimLeft(part, IsSpace) ensures c in part { }
    forall c | c in Strip(part) ensures c in part { }
    forall c | c in TrimLeft(Strip(part), IsQuote) ensures c in part { }
    forall c | c in StripQuotes(Strip(part)) ensures c in part { }
  }

  lemma {:induction false} ItemsCommaFree(parts: seq<string>)
    requires CommaFree(parts)
    ensures CommaFree(Items(parts))
  {
    if parts != [] {
      assert parts == [parts[0]] + parts[1..];
      ItemsCommaFree(parts[1..]);
      ItemOfCommaFree(parts[0]);
      ItemsCons(parts[0], parts[1..]);
    }
  }

  lemma ItemOfSelf(item: string)
    requires ',' !in item
    ensures ItemOf(item) == [item] <==> CleanItem(item)
  {
    StripIsStable(item);
    var t := Strip(item);
    if t == item && item != [] {
      QuotesStay(item);
    }
  }

  lemma QuotesStay(s: string)
    requires s != []
    ensures StripQuotes(s) == s <==> !IsQuote(s[0]) && !IsQuote(s[|s| - 1])
  {
  }

  lemma {:induction false} ItemsAreFewer(parts: seq<string>)
    ensures |Items(parts)| <= |parts|
  {
    if parts != [] {
      ItemsAreFewer(parts[1..]);
    }
  }

  /** Reading items one by one leaves all of them alone exactly when all are clean. */
  lemma {:induction false} ItemsOfSelf(items: seq<string>)
    requires CommaFree(items)
    ensures Items(items) == items <==> forall i :: i in items ==> CleanItem(i)
  {
    if items != [] {
      var item, rest := items[0], items[1..];
      assert items == [item] + rest && item in items;
      ItemsOfSelf(rest);
      ItemsCons(item, rest);
      ItemOfSelf(item);
      ItemsAreFewer(rest);
      FirstAndRest(item, rest, ItemOf(item), Items(rest));
    }
  }

  lemma FirstAndRest(item: string, rest: seq<string>, first: seq<string>, others: seq<string>)
    requires |first| <= 1 && |others| <= |rest|
    ensures first + others == [item] + rest <==> first == [item] && others == rest
  {
    if first + others == [item] + rest {
      assert |first| == 1;
      assert (first + others)[0] == item && (first + others)[1..] == others && ([item] + rest)[1..] == rest;
    }
  }

  /** A list comes back as itself exactly when its items are non-empty, comma-free, strip-stable and unquoted. */
  lemma ListRoundTripIff(items: seq<string>)
    ensures ParseValue(DumpValue(List(items))) == List(items) <==> forall i :: i in items ==> CleanItem(i)
  {
    DumpedListParses(items);
    if items == [] {
      NoItems(JoinItems(items));
    } else if CommaFree(items) {
      ItemsOfJoined(items);
      ItemsOfSelf(items);
    } else {
      CommaPartsCommaFree(JoinItems(items));
      ItemsCommaFree(CommaParts(JoinItems(items)));
    }
  }

  /** A value survives printing, the blank after the colon, and parsing exactly when it is clean. */
  lemma ValueRoundTripIff(v: Value)
    ensures ParseValue(" " + DumpValue(v)) == v <==> CleanValue(v)
  {
    assert " " + DumpValue(v) == [' '] + DumpValue(v);
    TrimLeftCons(' ', DumpValue(v), IsSpace);
    match v
    case Scalar(text) => ScalarRoundTripIff(text);
    case List(items) => ListRoundTripIff(items);
  }
}
