/**
  Which values the parser returns: exactly those that nest at most 64 levels and
  whose numbers are texts of finite numbers.
*/
module JsonValues {
  import opened EventLines
  import opened JsonDocs
  import opened JsonText

  // At most `n` levels of arrays and objects that hold something.
  ghost predicate Readable(j: Json, n: nat, finite: Finite)
    decreases n
  {
    match j
    case Number(text) => IsNumber(text) && finite(text)
    case Array(items) => items == [] || (n > 0 && forall v :: v in items ==> Readable(v, n - 1, finite))
    case Object(members) => members == map[] || (n > 0 && forall k :: k in members ==> Readable(members[k], n - 1, finite))
    case _ => true
  }

  // ------------------------------------------------- every such value has a text

  lemma {:induction false} Documented(j: Json, n: nat, finite: Finite) returns (d: Doc)
    requires Readable(j, n, finite)
    ensures Meaning(d) == j && Depth(d) <= n && NumbersOk(d, finite)
    decreases n, 1, 0
  {
    match j
    case Null => d := DNull;
    case Bool(flag) => d := DBool(flag);
    case Number(text) => d := DNumber(text);
    case String(text) => d := DText(text);
    case Array(items) =>
      if items == [] {
        return DArray(Nil);
      }
      var l := ItemsDocumented(items, n - 1, finite);
      d := DArray(l);
    case Object(members) =>
      var none: map<string, Json> := map[];
      if members == map[] {
        return DObject(Nil);
      }
      var l := MembersDocumented(none, members, n - 1, finite);
      assert none + members == members;
      d := DObject(l);
  }

  lemma {:induction false} ItemsDocumented(items: seq<Json>, n: nat, finite: Finite) returns (l: List<Doc>)
    requires forall v :: v in items ==> Readable(v, n, finite)
    ensures Meanings(l) == items && DeepestItem(l) <= n && ItemsOk(l, finite) && (l.Nil? <==> items == [])
    decreases n, 2, |items|
  {
    if items == [] {
      return Nil;
    }
    var d := Documented(items[0], n, finite);
    var rest := ItemsDocumented(items[1..], n, finite);
    l := Cons(d, rest);
    assert items == [items[0]] + items[1..];
  }

  lemma {:induction false} MembersDocumented(acc: map<string, Json>, members: map<string, Json>, n: nat, finite: Finite)
      returns (l: List<(string, Doc)>)
    requires forall k :: k in members ==> Readable(members[k], n, finite)
    ensures Gathered(acc, l) == acc + members && DeepestMember(l) <= n && MembersOk(l, finite)
    ensures l.Nil? <==> members == map[]
    decreases n, 2, |members|
  {
    hide Readable, Meaning, Depth, NumbersOk;
    if members == map[] {
      NoneAdded(acc);
      return Nil;
    }
    var k :| k in members;
    var d := Documented(members[k], n, finite);
    OneKeyFirst(acc, members, k);
    var rest := MembersDocumented(acc[k := members[k]], members - {k}, n, finite);
    l := Cons((k, d), rest);
  }

  lemma NoneAdded(acc: map<string, Json>)
    ensures acc + map[] == acc
  {
  }

  lemma OneKeyFirst(acc: map<string, Json>, members: map<string, Json>, k: string)
    requires k in members
    ensures |members - {k}| < |members|
    ensures acc[k := members[k]] + (members - {k}) == acc + members
  {
    var fewer := members - {k};
    assert members == fewer[k := members[k]];
  }

  // ------------------------------------------------- and every text such a value

  lemma {:induction false} DigitsWithin(s: string, p: nat, q: nat, i: nat)
    requires p + i <= q <= |s| && DigitsEnd(s, p + i) <= q
    ensures DigitsEnd(s[p..q], i) == DigitsEnd(s, p + i) - p
    decreases q - i
  {
    if p + i < q && IsDigit(s[p + i]) {
      DigitsWithin(s, p, q, i + 1);
    }
  }

  lemma IntegerWithin(s: string, p: nat, q: nat)
    requires p <= q <= |s| && IntegerEnd(s, p).Done? && IntegerEnd(s, p).pos <= q
    ensures IntegerEnd(s[p..q], 0) == Done((), IntegerEnd(s, p).pos - p)
  {
    var i := if s[p] == '-' then 1 else 0;
    if s[p + i] != '0' {
      assert DigitsEnd(s, p + i) == DigitsEnd(s, p + i + 1);
      DigitsWithin(s, p, q, i);
    }
  }

  lemma FractionWithin(s: string, p: nat, q: nat, i: nat)
    requires p + i <= q <= |s| && FractionEnd(s, p + i).Done? && FractionEnd(s, p + i).pos <= q
    ensures FractionEnd(s[p..q], i) == Done((), FractionEnd(s, p + i).pos - p)
  {
    if p + i < |s| && s[p + i] == '.' {
      DigitsWithin(s, p, q, i + 1);
    }
  }

  lemma ExponentWithin(s: string, p: nat, q: nat, i: nat)
    requires p + i <= q <= |s| && ExponentEnd(s, p + i).Done? && ExponentEnd(s, p + i).pos <= q
    ensures ExponentEnd(s[p..q], i) == Done((), ExponentEnd(s, p + i).pos - p)
  {
    if p + i < |s| && (s[p + i] == 'e' || s[p + i] == 'E') {
      var j := if i + 1 < |s| - p && (s[p + i + 1] == '+' || s[p + i + 1] == '-') then i + 2 else i + 1;
      DigitsWithin(s, p, q, j);
    }
  }

  // What is taken for a number is one by itself.
  lemma TokenIsNumber(s: string, p: nat)
    requires p <= |s| && NumberEnd(s, p).Done?
    ensures IsNumber(s[p..NumberEnd(s, p).pos])
  {
    hide IntegerEnd, FractionEnd, ExponentEnd;
    var q := NumberEnd(s, p).pos;
    var i := IntegerEnd(s, p).pos;
    var f := FractionEnd(s, i).pos;
    IntegerWithin(s, p, q);
    FractionWithin(s, p, q, i - p);
    ExponentWithin(s, p, q, f - p);
  }

  lemma {:induction false} ValueIsReadable(s: string, p: nat, depth: nat, finite: Finite)
    requires p <= |s| && depth <= MAX_DEPTH && Value(s, p, depth, finite).Done?
    ensures Readable(Value(s, p, depth, finite).value, MAX_DEPTH - depth, finite)
    decreases |s| - p, 1
  {
    hide StringFrom, SkipSpace, Items, Members, NumberEnd, IsNumber;
    if s[p] == '{' {
      var q := SkipSpace(s, p + 1);
      if !(q < |s| && s[q] == '}') {
        MembersAreReadable(s, q, depth, finite, map[]);
      }
    } else if s[p] == '[' {
      var q := SkipSpace(s, p + 1);
      if !(q < |s| && s[q] == ']') {
        ItemsAreReadable(s, q, depth, finite, []);
      }
    } else if s[p] != '"' && s[p] != 't' && s[p] != 'f' && s[p] != 'n' {
      TokenIsNumber(s, p);
    }
  }

  ghost predicate AllReadable(items: seq<Json>, n: nat, finite: Finite) {
    forall v :: v in items ==> Readable(v, n, finite)
  }

  ghost predicate EachReadable(members: map<string, Json>, n: nat, finite: Finite) {
    forall k :: k in members ==> Readable(members[k], n, finite)
  }

  // An array that is read lies above the last level, and so do its items.
  lemma {:induction false} ItemsAreReadable(s: string, p: nat, depth: nat, finite: Finite, acc: seq<Json>)
    requires p <= |s| && depth <= MAX_DEPTH && Items(s, p, depth, finite, acc).Done?
    requires depth < MAX_DEPTH ==> AllReadable(acc, MAX_DEPTH - depth - 1, finite)
    ensures Readable(Items(s, p, depth, finite, acc).value, MAX_DEPTH - depth, finite)
    decreases |s| - p, 2
  {
    hide SkipSpace, Value, Readable;
    var at := SkipSpace(s, p);
    var item := Value(s, at, depth + 1, finite);
    if depth == MAX_DEPTH {
      TooDeepToRead(s, at, depth + 1, finite);
    } else {
      ValueIsReadable(s, at, depth + 1, finite);
      var more, q := acc + [item.value], SkipSpace(s, item.pos);
      if s[q] == ',' {
        ItemsAreReadable(s, q + 1, depth, finite, more);
      } else {
        ArrayIsReadable(more, MAX_DEPTH - depth, finite);
      }
    }
  }

  lemma ArrayIsReadable(items: seq<Json>, n: nat, finite: Finite)
    requires n > 0 && AllReadable(items, n - 1, finite)
    ensures Readable(Array(items), n, finite)
  {
  }

  lemma ObjectIsReadable(members: map<string, Json>, n: nat, finite: Finite)
    requires n > 0 && EachReadable(members, n - 1, finite)
    ensures Readable(Object(members), n, finite)
  {
  }

  // The same of an object and its members.
  lemma {:induction false} MembersAreReadable(s: string, p: nat, depth: nat, finite: Finite, acc: map<string, Json>)
    requires p <= |s| && depth <= MAX_DEPTH && Members(s, p, depth, finite, acc).Done?
    requires depth < MAX_DEPTH ==> EachReadable(acc, MAX_DEPTH - depth - 1, finite)
    ensures Readable(Members(s, p, depth, finite, acc).value, MAX_DEPTH - depth, finite)
    decreases |s| - p, 4
  {
    hide SkipSpace, Member, Readable;
    MemberIsReadable(s, p, depth, finite);
    var m := Member(s, p, depth, finite);
    var more, q := acc[m.value.0 := m.value.1], SkipSpace(s, m.pos);
    if s[q] == ',' {
      MembersAreReadable(s, q + 1, depth, finite, more);
    } else {
      ObjectIsReadable(more, MAX_DEPTH - depth, finite);
    }
  }

  lemma {:induction false} MemberIsReadable(s: string, p: nat, depth: nat, finite: Finite)
    requires p <= |s| && depth <= MAX_DEPTH && Member(s, p, depth, finite).Done?
    ensures depth < MAX_DEPTH && Readable(Member(s, p, depth, finite).value.1, MAX_DEPTH - depth - 1, finite)
    decreases |s| - p, 3
  {
    hide SkipSpace, Value, Readable, StringFrom;
    var p2 := StringFrom(s, SkipSpace(s, p) + 1, "").pos;
    var at := SkipSpace(s, SkipSpace(s, p2) + 1);
    if depth == MAX_DEPTH {
      TooDeepToRead(s, at, depth + 1, finite);
    } else {
      ValueIsReadable(s, at, depth + 1, finite);
    }
  }

  // Some text is read as `j` exactly when `j` nests at most 64 levels and its
  // numbers are finite ones.
  lemma ReadableIffParsed(j: Json, finite: Finite)
    ensures Readable(j, MAX_DEPTH, finite) <==> exists s: string :: Parse(s, finite) == Done(j, |s|)
  {
    hide Value, SkipSpace, Readable;
    if Readable(j, MAX_DEPTH, finite) {
      var d := Documented(j, MAX_DEPTH, finite);
      ParseInvertsPrint(d, "", finite);
      assert Parse(Print(d, ""), finite) == Done(j, |Print(d, "")|);
    }
    if s: string :| Parse(s, finite) == Done(j, |s|) {
      ValueIsReadable(s, SkipSpace(s, 0), 0, finite);
    }
  }
}
