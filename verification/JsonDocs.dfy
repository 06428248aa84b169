/**
  What the parser makes of a whole document: any JSON text with escaped strings
  and white space between its parts is read as the value it stands for, down to
  the depth the parser follows (sections 2 to 7 of RFC 8259).
*/
module JsonDocs {
  import opened EventLines
  import opened JsonEscape
  import opened JsonText

  datatype List<T> = Nil | Cons(head: T, tail: List<T>)

  // A document as written: its members are in order, and a key may come twice.
  datatype Doc =
    | DNull
    | DBool(flag: bool)
    | DNumber(digits: string)
    | DText(text: string)
    | DArray(items: List<Doc>)
    | DObject(members: List<(string, Doc)>)

  // ------------------------------------------------- meaning

  // Of members with the same key the last one counts.
  function Meaning(d: Doc): Json {
    match d
    case DNull => Null
    case DBool(flag) => Bool(flag)
    case DNumber(digits) => Number(digits)
    case DText(text) => String(text)
    case DArray(items) => Array(Meanings(items))
    case DObject(members) => Object(Gathered(map[], members))
  }

  function Meanings(items: List<Doc>): seq<Json> {
    match items
    case Nil => []
    case Cons(d, rest) => [Meaning(d)] + Meanings(rest)
  }

  function Gathered(acc: map<string, Json>, members: List<(string, Doc)>): map<string, Json>
    decreases members
  {
    match members
    case Nil => acc
    case Cons((key, d), rest) => Gathered(acc[key := Meaning(d)], rest)
  }

  // Levels of arrays and objects that hold something.
  function Depth(d: Doc): nat {
    match d
    case DArray(items) => if items.Nil? then 0 else 1 + DeepestItem(items)
    case DObject(members) => if members.Nil? then 0 else 1 + DeepestMember(members)
    case _ => 0
  }

  function Larger(a: nat, b: nat): nat { if a < b then b else a }

  function DeepestItem(items: List<Doc>): nat {
    match items
    case Nil => 0
    case Cons(d, rest) => Larger(Depth(d), DeepestItem(rest))
  }

  function DeepestMember(members: List<(string, Doc)>): nat {
    match members
    case Nil => 0
    case Cons((_, d), rest) => Larger(Depth(d), DeepestMember(rest))
  }

  // Every number follows the grammar and is one of a finite value.
  predicate NumbersOk(d: Doc, finite: Finite) {
    match d
    case DNumber(digits) => IsNumber(digits) && finite(digits)
    case DArray(items) => ItemsOk(items, finite)
    case DObject(members) => MembersOk(members, finite)
    case _ => true
  }

  predicate ItemsOk(items: List<Doc>, finite: Finite) {
    match items
    case Nil => true
    case Cons(d, rest) => NumbersOk(d, finite) && ItemsOk(rest, finite)
  }

  predicate MembersOk(members: List<(string, Doc)>, finite: Finite) {
    match members
    case Nil => true
    case Cons((_, d), rest) => NumbersOk(d, finite) && MembersOk(rest, finite)
  }

  // ------------------------------------------------- text

  predicate IsGap(gap: string) { forall i :: 0 <= i < |gap| ==> IsSpace(gap[i]) }

  // The document with `gap` between any two of its tokens.
  function Text(d: Doc, gap: string): string
    decreases d, 0
  {
    match d
    case DNull => "null"
    case DBool(flag) => if flag then "true" else "false"
    case DNumber(digits) => digits
    case DText(text) => Quoted(text)
    case DArray(items) => "[" + (if items.Nil? then gap + "]" else ItemsText(items, gap))
    case DObject(members) => "{" + (if members.Nil? then gap + "}" else MembersText(members, gap))
  }

  function ItemsText(items: List<Doc>, gap: string): string
    requires items.Cons?
    decreases items, 1
  {
    gap + (Text(items.head, gap) + (gap + AfterItem(items.tail, gap)))
  }

  function AfterItem(rest: List<Doc>, gap: string): string
    decreases rest, 2
  {
    if rest.Nil? then "]" else "," + ItemsText(rest, gap)
  }

  function MembersText(members: List<(string, Doc)>, gap: string): string
    requires members.Cons?
    decreases members, 1
  {
    gap + (Quoted(members.head.0) + (gap + (":" + (gap + (Text(members.head.1, gap) + (gap + AfterOne(members.tail, gap)))))))
  }

  function AfterOne(rest: List<(string, Doc)>, gap: string): string
    decreases rest, 2
  {
    if rest.Nil? then "}" else "," + MembersText(rest, gap)
  }

  function Print(d: Doc, gap: string): string { gap + (Text(d, gap) + gap) }

  // ------------------------------------------------- white space

  lemma {:induction false} GapIsSkipped(s: string, p: nat, gap: string)
    requires p <= |s| && HasAt(s, p, gap) && IsGap(gap)
    ensures p + |gap| <= |s| && SkipSpace(s, p) == SkipSpace(s, p + |gap|)
    decreases |gap|
  {
    if gap != "" {
      CharAt(s, p, gap, 0);
      assert gap == gap[..1] + gap[1..];
      Parts(s, p, gap[..1], gap[1..]);
      GapIsSkipped(s, p + 1, gap[1..]);
    }
  }

  lemma {:induction false} SkipStops(s: string, p: nat)
    requires p <= |s|
    ensures SkipSpace(s, SkipSpace(s, p)) == SkipSpace(s, p)
    decreases |s| - p
  {
    if p < |s| && IsSpace(s[p]) {
      SkipStops(s, p + 1);
    }
  }

  // A gap and then a word: the word is next, and what precedes the gap ends there.
  lemma WordAfterGap(s: string, p: nat, gap: string, word: string)
    requires p <= |s| && HasAt(s, p, gap + word) && IsGap(gap) && word != "" && !IsSpace(word[0])
    ensures var q := p + |gap|;
      q < |s| && SkipSpace(s, p) == q == SkipSpace(s, q) && HasAt(s, q, word) && s[q] == word[0]
    ensures p < |s| && (IsSpace(s[p]) || s[p] == word[0])
  {
    Parts(s, p, gap, word);
    GapIsSkipped(s, p, gap);
    NoSpace(s, p + |gap|, word);
    if gap != "" {
      CharAt(s, p, gap, 0);
    }
  }

  lemma TextStarts(d: Doc, gap: string, finite: Finite)
    requires NumbersOk(d, finite)
    ensures Text(d, gap) != "" && !IsSpace(Text(d, gap)[0]) && Text(d, gap)[0] != ']' && Text(d, gap)[0] != '}'
  {
    if d.DNumber? {
      assert IntegerEnd(d.digits, 0).Done?;
    }
  }

  // ------------------------------------------------- reading

  // The value, or the refusal of what lies too deep.
  predicate Reads(r: Result<Json>, fits: bool, v: Json, end: nat) {
    if fits then r == Done(v, end) else r.Fail? && r.fault == TooDeep
  }

  lemma WordIsRead(s: string, p: nat, d: Doc, gap: string, depth: nat, finite: Finite)
    requires p <= |s| && HasAt(s, p, Text(d, gap)) && (d.DNull? || d.DBool?) && depth <= MAX_DEPTH
    ensures Value(s, p, depth, finite) == Done(Meaning(d), p + |Text(d, gap)|)
  {
    CharAt(s, p, Text(d, gap), 0);
  }

  // A document is read wherever it stands, if what follows does not belong to
  // a number: it is taken for what it means, and refused exactly when it goes
  // deeper than the parser follows.
  lemma {:induction false} DocIsRead(s: string, p: nat, d: Doc, gap: string, depth: nat, finite: Finite)
    requires p <= |s| && HasAt(s, p, Text(d, gap)) && EndsNumber(s, p + |Text(d, gap)|)
    requires IsGap(gap) && NumbersOk(d, finite)
    ensures Reads(Value(s, p, depth, finite), depth + Depth(d) <= MAX_DEPTH, Meaning(d), p + |Text(d, gap)|)
    decreases d, 0
  {
    hide HasAt, Text, Meaning, Depth, EndsNumber, IsGap;
    if depth > MAX_DEPTH {
      TooDeepToRead(s, p, depth, finite);
    } else {
      hide Value;
      match d
      case DArray(items) => ArrayIsRead(s, p, items, gap, depth, finite);
      case DObject(members) => ObjectIsRead(s, p, members, gap, depth, finite);
      case _ => ScalarIsRead(s, p, d, gap, depth, finite);
    }
  }

  lemma TooDeepToRead(s: string, p: nat, depth: nat, finite: Finite)
    requires p <= |s| && depth > MAX_DEPTH
    ensures Value(s, p, depth, finite) == Fail(TooDeep, p)
  {
  }

  lemma ScalarIsRead(s: string, p: nat, d: Doc, gap: string, depth: nat, finite: Finite)
    requires p <= |s| && HasAt(s, p, Text(d, gap)) && EndsNumber(s, p + |Text(d, gap)|) && depth <= MAX_DEPTH
    requires NumbersOk(d, finite) && !d.DArray? && !d.DObject?
    ensures Value(s, p, depth, finite) == Done(Meaning(d), p + |Text(d, gap)|) && Depth(d) == 0
  {
    hide HasAt, Value, Quoted, EndsNumber;
    match d
    case DNull => WordIsRead(s, p, d, gap, depth, finite);
    case DBool(_) => WordIsRead(s, p, d, gap, depth, finite);
    case DNumber(digits) => NumberIsRead(s, p, digits, depth, finite);
    case DText(text) => QuotedIsRead(s, p, text, depth, finite);
  }

  lemma {:induction false} ArrayIsRead(s: string, p: nat, items: List<Doc>, gap: string, depth: nat, finite: Finite)
    requires p <= |s| && HasAt(s, p, Text(DArray(items), gap)) && IsGap(gap) && ItemsOk(items, finite) && depth <= MAX_DEPTH
    ensures var d := DArray(items);
      Reads(Value(s, p, depth, finite), depth + Depth(d) <= MAX_DEPTH, Meaning(d), p + |Text(d, gap)|)
    decreases items, 2
  {
    hide HasAt, Items, ItemsText, SkipSpace, Value, IsGap, ItemsOk, Meanings, DeepestItem;
    if items.Nil? {
      BareArrayIsRead(s, p, gap, depth, finite);
      NothingMeant();
    } else {
      Opened(s, p, "[", ItemsText(items, gap));
      ItemsAreRead(s, p + 1, items, gap, depth, finite, []);
      FirstItemText(items, gap, finite);
      FirstItem(s, p + 1, items, gap, finite);
      ArrayStarts(s, p, depth, finite);
      ItemsFromGap(s, p + 1, depth, finite);
      NothingBefore(items);
    }
  }

  lemma FirstItemText(items: List<Doc>, gap: string, finite: Finite)
    requires items.Cons? && ItemsOk(items, finite)
    ensures NumbersOk(items.head, finite)
  {
  }

  lemma Opened(s: string, p: nat, bracket: string, rest: string)
    requires p <= |s| && |bracket| == 1 && HasAt(s, p, bracket + rest)
    ensures p < |s| && s[p] == bracket[0] && HasAt(s, p + 1, rest)
  {
    Parts(s, p, bracket, rest);
    InBounds(s, p, bracket);
    CharAt(s, p, bracket, 0);
  }

  lemma BareArrayIsRead(s: string, p: nat, gap: string, depth: nat, finite: Finite)
    requires p <= |s| && HasAt(s, p, "[" + (gap + "]")) && IsGap(gap) && depth <= MAX_DEPTH
    ensures Value(s, p, depth, finite) == Done(Array([]), p + |"[" + (gap + "]")|)
  {
    hide HasAt, SkipSpace, Value, Items;
    Opened(s, p, "[", gap + "]");
    WordAfterGap(s, p + 1, gap, "]");
    ArrayStarts(s, p, depth, finite);
  }

  lemma BareObjectIsRead(s: string, p: nat, gap: string, depth: nat, finite: Finite)
    requires p <= |s| && HasAt(s, p, "{" + (gap + "}")) && IsGap(gap) && depth <= MAX_DEPTH
    ensures Value(s, p, depth, finite) == Done(Object(map[]), p + |"{" + (gap + "}")|)
  {
    hide HasAt, SkipSpace, Value, Members;
    Opened(s, p, "{", gap + "}");
    WordAfterGap(s, p + 1, gap, "}");
    ObjectStarts(s, p, depth, finite);
  }

  lemma ArrayStarts(s: string, p: nat, depth: nat, finite: Finite)
    requires p < |s| && s[p] == '[' && depth <= MAX_DEPTH
    ensures var q := SkipSpace(s, p + 1);
      Value(s, p, depth, finite) == if q < |s| && s[q] == ']' then Done(Array([]), q + 1) else Items(s, q, depth, finite, [])
  {
    hide Items, SkipSpace;
  }

  lemma ObjectStarts(s: string, p: nat, depth: nat, finite: Finite)
    requires p < |s| && s[p] == '{' && depth <= MAX_DEPTH
    ensures var q := SkipSpace(s, p + 1);
      Value(s, p, depth, finite) == if q < |s| && s[q] == '}' then Done(Object(map[]), q + 1) else Members(s, q, depth, finite, map[])
  {
    hide Members, SkipSpace;
  }

  lemma FirstItem(s: string, p: nat, items: List<Doc>, gap: string, finite: Finite)
    requires p <= |s| && items.Cons? && HasAt(s, p, ItemsText(items, gap)) && IsGap(gap) && NumbersOk(items.head, finite)
    ensures var q := SkipSpace(s, p);
      && q == p + |gap| < |s| && s[q] != ']'
      && HasAt(s, q, Text(items.head, gap) + (gap + AfterItem(items.tail, gap)))
  {
    hide HasAt, SkipSpace, Text;
    TextStarts(items.head, gap, finite);
    WordAfterGap(s, p, gap, Text(items.head, gap) + (gap + AfterItem(items.tail, gap)));
  }

  lemma ItemsFromGap(s: string, p: nat, depth: nat, finite: Finite)
    requires p <= |s|
    ensures Items(s, SkipSpace(s, p), depth, finite, []) == Items(s, p, depth, finite, [])
  {
    SkipStops(s, p);
    hide SkipSpace, Value;
  }

  lemma OneMoreMeaning(acc: seq<Json>, items: List<Doc>)
    requires items.Cons?
    ensures acc + Meanings(items) == acc + [Meaning(items.head)] + Meanings(items.tail)
    ensures items.tail.Nil? ==> acc + Meanings(items) == acc + [Meaning(items.head)]
  {
    hide Meaning;
    assert acc + [Meaning(items.head)] + Meanings(items.tail) == acc + ([Meaning(items.head)] + Meanings(items.tail));
  }

  lemma NothingMeant()
    ensures Meanings(Nil) == []
  {
  }

  lemma NothingBefore(items: List<Doc>)
    ensures [] + Meanings(items) == Meanings(items)
  {
    hide Meanings;
  }

  lemma ItemTooDeep(s: string, p: nat, depth: nat, finite: Finite, acc: seq<Json>)
    requires p <= |s| && Value(s, SkipSpace(s, p), depth + 1, finite).Fail?
    ensures Items(s, p, depth, finite, acc).Fail?
    ensures Items(s, p, depth, finite, acc).fault == Value(s, SkipSpace(s, p), depth + 1, finite).fault
  {
    hide Value, SkipSpace;
  }

  lemma ItemStep(s: string, p: nat, depth: nat, finite: Finite, acc: seq<Json>, v: Json, e: nat)
    requires p <= |s| && e <= |s| && Value(s, SkipSpace(s, p), depth + 1, finite) == Done(v, e) && SkipSpace(s, e) < |s|
    ensures var r := SkipSpace(s, e);
      && (s[r] == ',' ==> Items(s, p, depth, finite, acc) == Items(s, r + 1, depth, finite, acc + [v]))
      && (s[r] == ']' ==> Items(s, p, depth, finite, acc) == Done(Array(acc + [v]), r + 1))
  {
    hide Value, SkipSpace;
  }

  lemma {:induction false} ItemsAreRead(s: string, p: nat, items: List<Doc>, gap: string, depth: nat, finite: Finite, acc: seq<Json>)
    requires p <= |s| && items.Cons? && HasAt(s, p, ItemsText(items, gap)) && IsGap(gap) && ItemsOk(items, finite)
    ensures Reads(Items(s, p, depth, finite, acc), depth + 1 + DeepestItem(items) <= MAX_DEPTH,
                  Array(acc + Meanings(items)), p + |ItemsText(items, gap)|)
    decreases items, 1
  {
    hide HasAt, SkipSpace, Text, Value, EndsNumber, NumbersOk, Depth, Meaning, Items;
    var d, rest := items.head, items.tail;
    FirstItem(s, p, items, gap, finite);
    var q := p + |gap|;
    AfterItemStarts(rest, gap);
    ValueEnds(s, q, Text(d, gap), gap, AfterItem(rest, gap));
    var e := q + |Text(d, gap)|;
    DocIsRead(s, q, d, gap, depth + 1, finite);
    OneMoreMeaning(acc, items);
    hide Meanings, AfterItem;
    if depth + 1 + Depth(d) > MAX_DEPTH {
      ItemTooDeep(s, p, depth, finite, acc);
    } else {
      ItemStep(s, p, depth, finite, acc, Meaning(d), e);
      if rest.Cons? {
        Parts(s, e + |gap|, ",", ItemsText(rest, gap));
        ItemsAreRead(s, e + |gap| + 1, rest, gap, depth, finite, acc + [Meaning(d)]);
      }
    }
  }

  lemma EndsBefore(s: string, e: nat, c: char)
    requires e < |s| && (IsSpace(s[e]) || s[e] == c) && (c == ',' || c == ']' || c == '}' || c == ':')
    ensures EndsNumber(s, e)
  {
  }

  lemma {:induction false} ObjectIsRead(s: string, p: nat, members: List<(string, Doc)>, gap: string, depth: nat, finite: Finite)
    requires p <= |s| && HasAt(s, p, Text(DObject(members), gap)) && IsGap(gap) && MembersOk(members, finite) && depth <= MAX_DEPTH
    ensures var d := DObject(members);
      Reads(Value(s, p, depth, finite), depth + Depth(d) <= MAX_DEPTH, Meaning(d), p + |Text(d, gap)|)
    decreases members, 2
  {
    hide HasAt, Members, MembersText, SkipSpace, Value, IsGap, MembersOk, Gathered, DeepestMember;
    if members.Nil? {
      BareObjectIsRead(s, p, gap, depth, finite);
      assert Gathered(map[], members) == map[] by { NothingGathered(); }
    } else {
      Opened(s, p, "{", MembersText(members, gap));
      MembersAreRead(s, p + 1, members, gap, depth, finite, map[]);
      KeyStarts(s, p + 1, members, gap);
      ObjectStarts(s, p, depth, finite);
      MembersFromGap(s, p + 1, depth, finite);
    }
  }

  lemma NothingGathered()
    ensures Gathered(map[], Nil) == map[]
  {
  }

  lemma MembersFromGap(s: string, p: nat, depth: nat, finite: Finite)
    requires p <= |s|
    ensures Members(s, SkipSpace(s, p), depth, finite, map[]) == Members(s, p, depth, finite, map[])
  {
    MemberFromGap(s, p, depth, finite);
    hide SkipSpace, Member, AfterMember;
  }

  lemma MemberFromGap(s: string, p: nat, depth: nat, finite: Finite)
    requires p <= |s|
    ensures Member(s, SkipSpace(s, p), depth, finite) == Member(s, p, depth, finite)
  {
    SkipStops(s, p);
    MemberFrom(s, p, SkipSpace(s, p), depth, finite) by { hide SkipSpace; }
  }

  lemma MemberFrom(s: string, p: nat, q: nat, depth: nat, finite: Finite)
    requires p <= |s| && q <= |s| && SkipSpace(s, p) == SkipSpace(s, q)
    ensures Member(s, p, depth, finite) == Member(s, q, depth, finite)
  {
    hide SkipSpace, Value, StringFrom;
  }

  lemma KeyStarts(s: string, p: nat, members: List<(string, Doc)>, gap: string)
    requires p <= |s| && members.Cons? && HasAt(s, p, MembersText(members, gap)) && IsGap(gap)
    ensures var q := SkipSpace(s, p);
      && q == p + |gap| < |s| && s[q] == '"'
      && HasAt(s, q, Quoted(members.head.0)
                     + (gap + (":" + (gap + (Text(members.head.1, gap) + (gap + AfterOne(members.tail, gap)))))))
  {
    hide HasAt, SkipSpace, Text, Escape, AfterOne;
    WordAfterGap(s, p, gap, Quoted(members.head.0)
                            + (gap + (":" + (gap + (Text(members.head.1, gap) + (gap + AfterOne(members.tail, gap)))))));
  }

  // Where the value of a member stands whose key is at `k`.
  lemma KeyIsRead(s: string, k: nat, key: string, gap: string, rest: string)
    requires k <= |s| && HasAt(s, k, Quoted(key) + (gap + (":" + (gap + rest)))) && IsGap(gap)
    requires rest != "" && !IsSpace(rest[0])
    ensures var c := k + |Quoted(key)|; var q := c + |gap| + 1 + |gap|;
      && k < |s| && s[k] == '"' && StringFrom(s, k + 1, "") == Done(key, c)
      && SkipSpace(s, c) == c + |gap| < |s| && s[c + |gap|] == ':' && c + |gap| + 1 <= |s|
      && SkipSpace(s, c + |gap| + 1) == q <= |s| && HasAt(s, q, rest)
  {
    hide HasAt, SkipSpace, Escape, StringFrom, IsGap;
    var c := k + |Quoted(key)|;
    Parts(s, k, Quoted(key), gap + (":" + (gap + rest)));
    Parts(s, k, "\"", Escape(key) + "\"");
    NoSpace(s, k, "\"");
    BodyIsRead(s, k + 1, key);
    WordAfterGap(s, c, gap, ":" + (gap + rest));
    Parts(s, c + |gap|, ":", gap + rest);
    InBounds(s, c + |gap|, ":");
    WordAfterGap(s, c + |gap| + 1, gap, rest);
  }

  lemma MemberValue(s: string, p: nat, depth: nat, finite: Finite, key: string, c: nat)
    requires p <= |s| && SkipSpace(s, p) < |s| && s[SkipSpace(s, p)] == '"'
    requires StringFrom(s, SkipSpace(s, p) + 1, "") == Done(key, c) && c <= |s|
    requires SkipSpace(s, c) < |s| && s[SkipSpace(s, c)] == ':'
    ensures var v := Value(s, SkipSpace(s, SkipSpace(s, c) + 1), depth + 1, finite);
      Member(s, p, depth, finite) == match v
                                     case Fail(fault, at) => Fail(fault, at)
                                     case Done(value, e) => Done((key, value), e)
  {
    hide StringFrom, SkipSpace, Value;
  }

  lemma MemberTooDeep(s: string, p: nat, depth: nat, finite: Finite, acc: map<string, Json>)
    requires p <= |s| && Member(s, p, depth, finite).Fail?
    ensures Members(s, p, depth, finite, acc).Fail?
    ensures Members(s, p, depth, finite, acc).fault == Member(s, p, depth, finite).fault
  {
    hide Member;
  }

  lemma MemberStep(s: string, p: nat, depth: nat, finite: Finite, acc: map<string, Json>, key: string, v: Json, e: nat)
    requires p <= |s| && e <= |s| && Member(s, p, depth, finite) == Done((key, v), e) && SkipSpace(s, e) < |s|
    ensures var r := SkipSpace(s, e);
      && (s[r] == ',' ==> Members(s, p, depth, finite, acc) == Members(s, r + 1, depth, finite, acc[key := v]))
      && (s[r] == '}' ==> Members(s, p, depth, finite, acc) == Done(Object(acc[key := v]), r + 1))
  {
    hide Member, SkipSpace;
  }

  // A member's length up to its value.
  function ValueAt(key: string, gap: string): nat { |gap| + |Quoted(key)| + |gap| + 1 + |gap| }

  lemma MemberHead(s: string, p: nat, members: List<(string, Doc)>, gap: string, depth: nat, finite: Finite)
    requires p <= |s| && members.Cons? && HasAt(s, p, MembersText(members, gap)) && IsGap(gap)
    requires NumbersOk(members.head.1, finite)
    ensures var q := p + ValueAt(members.head.0, gap);
      && q <= |s| && HasAt(s, q, Text(members.head.1, gap) + (gap + AfterOne(members.tail, gap)))
      && Member(s, p, depth, finite) == match Value(s, q, depth + 1, finite)
                                        case Fail(fault, at) => Fail(fault, at)
                                        case Done(v, end) => Done((members.head.0, v), end)
  {
    hide HasAt, SkipSpace, Text, Value, Member, NumbersOk, Quoted, StringFrom, IsGap, AfterOne, MembersText;
    var key, d := members.head.0, members.head.1;
    KeyStarts(s, p, members, gap);
    TextStarts(d, gap, finite);
    KeyIsRead(s, p + |gap|, key, gap, Text(d, gap) + (gap + AfterOne(members.tail, gap)));
    MemberValue(s, p, depth, finite, key, p + |gap| + |Quoted(key)|);
  }

  // A value's text up to what follows it.
  lemma ValueEnds(s: string, q: nat, text: string, gap: string, after: string)
    requires q <= |s| && HasAt(s, q, text + (gap + after)) && IsGap(gap) && after != ""
    requires after[0] == ',' || after[0] == ']' || after[0] == '}'
    ensures var e := q + |text|; var r := e + |gap|;
      && e < |s| && HasAt(s, q, text) && EndsNumber(s, e)
      && SkipSpace(s, e) == r < |s| && HasAt(s, r, after) && s[r] == after[0]
  {
    hide HasAt, SkipSpace, IsGap;
    Parts(s, q, text, gap + after);
    WordAfterGap(s, q + |text|, gap, after);
    EndsBefore(s, q + |text|, after[0]);
  }

  lemma AfterOneStarts(rest: List<(string, Doc)>, gap: string)
    ensures AfterOne(rest, gap) != "" && AfterOne(rest, gap)[0] == if rest.Nil? then '}' else ','
  {
  }

  lemma AfterItemStarts(rest: List<Doc>, gap: string)
    ensures AfterItem(rest, gap) != "" && AfterItem(rest, gap)[0] == if rest.Nil? then ']' else ','
  {
  }

  lemma {:induction false} MembersAreRead(s: string, p: nat, members: List<(string, Doc)>, gap: string, depth: nat, finite: Finite,
                                          acc: map<string, Json>)
    requires p <= |s| && members.Cons? && HasAt(s, p, MembersText(members, gap)) && IsGap(gap) && MembersOk(members, finite)
    ensures Reads(Members(s, p, depth, finite, acc), depth + 1 + DeepestMember(members) <= MAX_DEPTH,
                  Object(Gathered(acc, members)), p + |MembersText(members, gap)|)
    decreases members, 1
  {
    hide HasAt, SkipSpace, Text, Value, Member, Members, EndsNumber, NumbersOk, Depth, Meaning, Quoted, IsGap;
    var key, d, rest := members.head.0, members.head.1, members.tail;
    MemberHead(s, p, members, gap, depth, finite);
    var q := p + ValueAt(key, gap);
    AfterOneStarts(rest, gap);
    ValueEnds(s, q, Text(d, gap), gap, AfterOne(rest, gap));
    var e := q + |Text(d, gap)|;
    DocIsRead(s, q, d, gap, depth + 1, finite);
    if depth + 1 + Depth(d) > MAX_DEPTH {
      MemberTooDeep(s, p, depth, finite, acc);
    } else {
      MemberStep(s, p, depth, finite, acc, key, Meaning(d), e);
      if rest.Cons? {
        Parts(s, e + |gap|, ",", MembersText(rest, gap));
        MembersAreRead(s, e + |gap| + 1, rest, gap, depth, finite, acc[key := Meaning(d)]);
      }
    }
  }

  // Parsing inverts printing: every document whose numbers are finite is read
  // as what it means, whatever the white space, exactly down to depth 64.
  lemma ParseInvertsPrint(d: Doc, gap: string, finite: Finite)
    requires IsGap(gap) && NumbersOk(d, finite)
    ensures Depth(d) <= MAX_DEPTH ==> Parse(Print(d, gap), finite) == Done(Meaning(d), |Print(d, gap)|)
    ensures Depth(d) > MAX_DEPTH ==> Parse(Print(d, gap), finite).Fail? && Parse(Print(d, gap), finite).fault == TooDeep
  {
    hide HasAt, SkipSpace, Text, Value, NumbersOk, Depth, Meaning;
    var s, text := Print(d, gap), Text(d, gap);
    assert HasAt(s, 0, gap + (text + gap)) by { WholeIsThere(s); }
    TextStarts(d, gap, finite);
    WordAfterGap(s, 0, gap, text + gap);
    Parts(s, |gap|, text, gap);
    var e := |gap| + |text|;
    GapIsSkipped(s, e, gap);
    EndOfText(s, e, gap);
    DocIsRead(s, |gap|, d, gap, 0, finite);
  }

  lemma WholeIsThere(s: string)
    ensures HasAt(s, 0, s)
  {
    assert s[0..|s|] == s;
  }

  lemma EndOfText(s: string, e: nat, gap: string)
    requires e + |gap| == |s| && HasAt(s, e, gap) && IsGap(gap)
    ensures EndsNumber(s, e) && SkipSpace(s, |s|) == |s|
  {
    if gap != "" {
      CharAt(s, e, gap, 0);
    }
  }
}
