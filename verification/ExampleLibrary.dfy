// Libraries on which canonical text can be read back: a printer whose texts
// determine their values, and the parsers that invert it.
module ExampleLibrary {
  import opened Wrappers
  import opened Json
  import opened Limits
  import opened Receipts

  // ---------- Any parser that inverts canonical text ----------

  ghost function Read(p: Platform, raw: string): Option<Value> {
    if exists v: Value :: WellFormed(p, v) && CanonText(p, v) == raw then
      var v: Value :| WellFormed(p, v) && CanonText(p, v) == raw;
      Some(v)
    else None
  }

  ghost function Strictly(read: Option<Value>): StrictParse {
    if read.Some? then Admitted(read.value) else SyntaxError
  }

  // The libraries with parsers for their own canonical text.
  ghost function Parsing(p: Platform): Platform {
    p.(parse := raw => Read(p, raw), strict := raw => Strictly(Read(p, raw)))
  }

  // Canonical text does not depend on the parsers, nor does well-formedness.
  lemma {:induction false} SameText(p: Platform, v: Value)
    ensures CanonText(Parsing(p), v) == CanonText(p, v)
    ensures WellFormed(Parsing(p), v) <==> WellFormed(p, v)
    decreases NodeCount(v), 0
  {
    NodeCountOfTree(v);
    SameTexts(p, Children(v));
    if v.Object? {
      SameOrder(p, Keyed(v.members, CanonTexts(p, Children(v))));
    }
  }

  lemma {:induction false} SameTexts(p: Platform, vs: seq<Value>)
    ensures CanonTexts(Parsing(p), vs) == CanonTexts(p, vs)
    ensures AllWellFormed(Parsing(p), vs) <==> AllWellFormed(p, vs)
    decreases NodeCountAll(vs), 1
  {
    if vs != [] {
      SameText(p, vs[0]);
      SameTexts(p, vs[1..]);
    }
  }

  lemma {:induction false} SameOrder(p: Platform, members: seq<(string, string)>)
    ensures InsertAll(Parsing(p), members) == InsertAll(p, members)
    ensures Sorted(Parsing(p), members) == Sorted(p, members)
  {
    if members != [] {
      SameOrder(p, members[1..]);
      SameInsert(p, members[0], InsertAll(p, members[1..]));
    }
    SameRendering(p, InsertAll(p, members));
  }

  lemma {:induction false} SameInsert(p: Platform, m: (string, string), sorted: seq<(string, string)>)
    ensures Insert(Parsing(p), m, sorted) == Insert(p, m, sorted)
  {
    if sorted != [] {
      SameInsert(p, m, sorted[1..]);
    }
  }

  lemma {:induction false} SameRendering(p: Platform, members: seq<(string, string)>)
    ensures Rendered(Parsing(p), members) == Rendered(p, members)
  {
    if members != [] {
      SameRendering(p, members[1..]);
    }
  }

  // Canonical texts determine their values.
  ghost predicate Decodable(p: Platform) {
    forall v: Value, w: Value :: WellFormed(p, v) && WellFormed(p, w) && CanonText(p, v) == CanonText(p, w) ==> v == w
  }

  lemma ParsingRoundTrips(p: Platform)
    requires Decodable(p)
    ensures RoundTrips(Parsing(p))
  {
    var q := Parsing(p);
    forall raw: string | q.strict(raw).Admitted? ensures WellFormed(q, q.strict(raw).value) {
      SameText(p, q.strict(raw).value);
    }
    forall v: Value | WellFormed(q, v)
      ensures q.strict(CanonText(q, v)) == Admitted(v) && q.parse(CanonText(q, v)) == Some(v)
    {
      SameText(p, v);
    }
  }

  // ---------- A printer ----------

  function Quote(s: string): string {
    "\"" + Escaped(s) + "\""
  }

  function Escaped(s: string): string {
    if s == [] then []
    else if s[0] == '"' || s[0] == '\\' then ['\\', s[0]] + Escaped(s[1..])
    else [s[0]] + Escaped(s[1..])
  }

  // The only two digests that are printed are `first` and `second`.
  function Leaf(first: Text, second: Text, v: Value): string {
    match v
    case Null => "null"
    case Bool(b) => if b then "true" else "false"
    case Str(Chars(s)) => Quote(s)
    case Str(HashOf(_)) => if v.text == first then "1" else "2"
    case _ => ""
  }

  predicate LeafOk(first: Text, second: Text, v: Value) {
    v.Null? || v.Bool? || (v.Str? && (v.text.Chars? || v.text == first || v.text == second))
  }

  predicate Before(a: string, b: string) {
    b != [] && (a == [] || a[0] < b[0] || (a[0] == b[0] && Before(a[1..], b[1..])))
  }

  ghost predicate Prints(p: Platform, first: Text, second: Text) {
    && (forall v: Value :: p.leaf(v) == Leaf(first, second, v) && p.leafOk(v) == LeafOk(first, second, v))
    && (forall name: string :: p.quote(name) == Quote(name))
    && (forall a: string, b: string :: p.keyBefore(a, b) == p.mapBefore(a, b) == Before(a, b))
  }

  // ---------- Its texts determine their values ----------

  lemma {:induction false} QuoteDecodes(a: string, b: string, rest: string)
    requires Escaped(a) + "\"" <= Escaped(b) + "\"" + rest
    ensures a == b
  {
    var left, right := Escaped(a) + "\"", Escaped(b) + "\"" + rest;
    assert left[0] == right[0];
    if a != [] && b != [] {
      if left[0] == '\\' {
        assert left[1] == right[1];
        assert left[2..] == Escaped(a[1..]) + "\"" && right[2..] == Escaped(b[1..]) + "\"" + rest;
      } else {
        assert left[1..] == Escaped(a[1..]) + "\"" && right[1..] == Escaped(b[1..]) + "\"" + rest;
      }
      QuoteDecodes(a[1..], b[1..], rest);
    }
  }

  predicate Comparable(a: string, b: string) {
    a <= b || b <= a
  }

  // Texts that may stand between commas before a closing bracket.
  predicate Items(texts: seq<string>, close: char) {
    forall i :: 0 <= i < |texts| ==> texts[i] != [] && texts[i][0] != close
  }

  // Neither list has a text that starts the other's at the same place.
  predicate Separate(a: seq<string>, b: seq<string>) {
    forall i :: 0 <= i < |a| && i < |b| && Comparable(a[i], b[i]) ==> a[i] == b[i]
  }

  lemma {:induction false} JoinedDecodes(a: seq<string>, b: seq<string>, close: char)
    requires Items(a, close) && Items(b, close) && close != ',' && Separate(a, b)
    requires Joined(a) + [close] <= Joined(b) + [close]
    ensures a == b
  {
    var left, right := Joined(a) + [close], Joined(b) + [close];
    assert left[0] == right[0];
    if a != [] && b != [] {
      assert a[0] <= left && b[0] <= right by {
        StartsWithFirst(a);
        StartsWithFirst(b);
      }
      assert Comparable(a[0], b[0]);
      var n := |a[0]|;
      assert left[n] == right[n];
      if |a| > 1 && |b| > 1 {
        assert left[n + 1..] == Joined(a[1..]) + [close] && right[n + 1..] == Joined(b[1..]) + [close];
        JoinedDecodes(a[1..], b[1..], close);
      }
    }
  }

  lemma StartsWithFirst(texts: seq<string>)
    requires texts != []
    ensures texts[0] <= Joined(texts)
  {
  }

  lemma {:induction false} TextAt(p: Platform, vs: seq<Value>, i: nat)
    requires i < |vs|
    ensures CanonTexts(p, vs)[i] == CanonText(p, vs[i])
  {
    if i > 0 {
      TextAt(p, vs[1..], i - 1);
    }
  }

  // Well-formed members are already in order.
  lemma {:induction false} InOrder(p: Platform, first: Text, second: Text, members: seq<Member>, texts: seq<string>)
    requires Prints(p, first, second) && |members| == |texts|
    requires forall i, j :: 0 <= i < j < |members| ==> p.mapBefore(members[i].key, members[j].key)
    ensures InsertAll(p, Keyed(members, texts)) == Keyed(members, texts)
    ensures var sorted := Sorted(p, Keyed(members, texts));
            |sorted| == |texts| && forall i :: 0 <= i < |texts| ==> sorted[i] == Item(members[i].key, texts[i])
  {
    if members != [] {
      InOrder(p, first, second, members[1..], texts[1..]);
      assert Keyed(members, texts) == [(members[0].key, texts[0])] + Keyed(members[1..], texts[1..]);
      assert Keyed(members, texts)[1..] == Keyed(members[1..], texts[1..]);
    }
  }

  function Item(name: string, text: string): string {
    Quote(name) + ":" + text
  }

  lemma ItemDecodes(a: string, x: string, b: string, y: string)
    requires Item(a, x) <= Item(b, y)
    ensures a == b && x <= y
  {
    var left, right := Item(a, x), Item(b, y);
    assert left[1..] == Escaped(a) + "\"" + (":" + x) && right[1..] == Escaped(b) + "\"" + (":" + y);
    assert Escaped(a) + "\"" <= left[1..] && left[1..] <= right[1..];
    QuoteDecodes(a, b, ":" + y);
    var n := |Quote(a)| + 1;
    assert left[n..] == x && right[n..] == y;
  }

  lemma FirstChar(p: Platform, first: Text, second: Text, v: Value)
    requires Prints(p, first, second) && WellFormed(p, v)
    ensures var text := CanonText(p, v);
            && text != []
            && (text[0] == '[' <==> v.Array?)
            && (text[0] == '{' <==> v.Object?)
            && text[0] != ']' && text[0] != '}'
  {
    NodeCountOfTree(v);
  }

  lemma LeafDecodes(first: Text, second: Text, v: Value, w: Value)
    requires LeafOk(first, second, v) && LeafOk(first, second, w)
    requires Leaf(first, second, v) <= Leaf(first, second, w)
    ensures v == w
  {
    var left, right := Leaf(first, second, v), Leaf(first, second, w);
    assert left[0] == right[0];
    if v.Str? && v.text.Chars? && w.Str? && w.text.Chars? {
      assert left[1..] == Escaped(v.text.chars) + "\"" && right[1..] == Escaped(w.text.chars) + "\"";
      QuoteDecodes(v.text.chars, w.text.chars, "");
    }
  }

  // A text that starts another is that text, and of the same value.
  lemma {:induction false} Decodes(p: Platform, first: Text, second: Text, v: Value, w: Value)
    requires Prints(p, first, second) && WellFormed(p, v) && WellFormed(p, w)
    requires CanonText(p, v) <= CanonText(p, w)
    ensures v == w
    decreases NodeCount(v) + NodeCount(w)
  {
    var left, right := CanonText(p, v), CanonText(p, w);
    FirstChar(p, first, second, v);
    FirstChar(p, first, second, w);
    assert left[0] == right[0];
    if v.Array? {
      ElementsDecode(p, first, second, v, w);
    } else if v.Object? {
      MembersDecode(p, first, second, v, w);
    } else {
      LeafDecodes(first, second, v, w);
    }
  }

  // Children whose texts are comparable are equal.
  lemma ChildDecodes(p: Platform, first: Text, second: Text, v: Value, w: Value, i: nat)
    requires Prints(p, first, second) && WellFormed(p, v) && WellFormed(p, w)
    requires i < |Children(v)| && i < |Children(w)|
    requires Comparable(CanonText(p, Children(v)[i]), CanonText(p, Children(w)[i]))
    ensures Children(v)[i] == Children(w)[i]
    decreases NodeCount(v) + NodeCount(w), 0
  {
    NodeCountOfTree(v);
    NodeCountOfTree(w);
    ChildIsSmaller(Children(v), i);
    ChildIsSmaller(Children(w), i);
    WellFormedElement(p, Children(v), i);
    WellFormedElement(p, Children(w), i);
    if CanonText(p, Children(v)[i]) <= CanonText(p, Children(w)[i]) {
      Decodes(p, first, second, Children(v)[i], Children(w)[i]);
    } else {
      Decodes(p, first, second, Children(w)[i], Children(v)[i]);
    }
  }

  lemma ElementsDecode(p: Platform, first: Text, second: Text, v: Value, w: Value)
    requires Prints(p, first, second) && WellFormed(p, v) && WellFormed(p, w)
    requires v.Array? && w.Array? && CanonText(p, v) <= CanonText(p, w)
    ensures v == w
    decreases NodeCount(v) + NodeCount(w), 1
  {
    var a, b := CanonTexts(p, v.elements), CanonTexts(p, w.elements);
    AreItems(p, first, second, v);
    AreItems(p, first, second, w);
    forall i | 0 <= i < |a| && i < |b| && Comparable(a[i], b[i])
      ensures v.elements[i] == w.elements[i] && a[i] == b[i]
    {
      TextAt(p, v.elements, i);
      TextAt(p, w.elements, i);
      ChildDecodes(p, first, second, v, w, i);
    }
    StartsDecode(Joined(a), Joined(b), '[', ']');
    JoinedDecodes(a, b, ']');
    assert forall i :: 0 <= i < |a| ==> Comparable(a[i], b[i]);
  }

  lemma AreItems(p: Platform, first: Text, second: Text, v: Value)
    requires Prints(p, first, second) && WellFormed(p, v)
    ensures Items(CanonTexts(p, Children(v)), ']')
  {
    NodeCountOfTree(v);
    forall i | 0 <= i < |Children(v)|
      ensures CanonTexts(p, Children(v))[i] != [] && CanonTexts(p, Children(v))[i][0] != ']'
    {
      TextAt(p, Children(v), i);
      WellFormedElement(p, Children(v), i);
      FirstChar(p, first, second, Children(v)[i]);
    }
  }

  lemma MemberDecodes(p: Platform, first: Text, second: Text, v: Value, w: Value, i: nat)
    requires Prints(p, first, second) && WellFormed(p, v) && WellFormed(p, w)
    requires v.Object? && w.Object? && i < |v.members| && i < |w.members|
    requires Item(v.members[i].key, CanonText(p, Children(v)[i]))
          <= Item(w.members[i].key, CanonText(p, Children(w)[i]))
    ensures v.members[i] == w.members[i]
    decreases NodeCount(v) + NodeCount(w), 1
  {
    ItemDecodes(v.members[i].key, CanonText(p, Children(v)[i]), w.members[i].key, CanonText(p, Children(w)[i]));
    ChildDecodes(p, first, second, v, w, i);
  }

  lemma MembersDecode(p: Platform, first: Text, second: Text, v: Value, w: Value)
    requires Prints(p, first, second) && WellFormed(p, v) && WellFormed(p, w)
    requires v.Object? && w.Object? && CanonText(p, v) <= CanonText(p, w)
    ensures v == w
    decreases NodeCount(v) + NodeCount(w), 2
  {
    var a, b := SortedTexts(p, v), SortedTexts(p, w);
    ItemsOf(p, first, second, v);
    ItemsOf(p, first, second, w);
    forall i | 0 <= i < |a| && i < |b| && Comparable(a[i], b[i])
      ensures v.members[i] == w.members[i] && a[i] == b[i]
    {
      if a[i] <= b[i] {
        MemberDecodes(p, first, second, v, w, i);
      } else {
        MemberDecodes(p, first, second, w, v, i);
      }
    }
    StartsDecode(Joined(a), Joined(b), '{', '}');
    JoinedDecodes(a, b, '}');
    assert forall i :: 0 <= i < |a| ==> Comparable(a[i], b[i]);
  }

  lemma StartsDecode(a: string, b: string, open: char, close: char)
    requires [open] + a + [close] <= [open] + b + [close]
    ensures a + [close] <= b + [close]
  {
    assert ([open] + a + [close])[1..] == a + [close] && ([open] + b + [close])[1..] == b + [close];
  }

  function SortedTexts(p: Platform, v: Value): seq<string>
    requires v.Object?
  {
    Sorted(p, Keyed(v.members, CanonTexts(p, Children(v))))
  }

  lemma ItemsOf(p: Platform, first: Text, second: Text, v: Value)
    requires Prints(p, first, second) && WellFormed(p, v) && v.Object?
    ensures |SortedTexts(p, v)| == |v.members| && Items(SortedTexts(p, v), '}')
    ensures forall i :: 0 <= i < |v.members| ==>
              SortedTexts(p, v)[i] == Item(v.members[i].key, CanonText(p, Children(v)[i]))
  {
    NodeCountOfTree(v);
    InOrder(p, first, second, v.members, CanonTexts(p, Children(v)));
    forall i | 0 <= i < |v.members| ensures CanonTexts(p, Children(v))[i] == CanonText(p, Children(v)[i]) {
      TextAt(p, Children(v), i);
    }
  }

  lemma PrinterIsDecodable(p: Platform, first: Text, second: Text)
    requires Prints(p, first, second)
    ensures Decodable(p)
  {
    forall v: Value, w: Value | WellFormed(p, v) && WellFormed(p, w) && CanonText(p, v) == CanonText(p, w)
      ensures v == w
    {
      Decodes(p, first, second, v, w);
    }
  }

  // ---------- Its texts are short ----------

  // Names and strings have at most 30 characters.
  predicate Short(v: Value)
    decreases NodeCount(v), 0
  {
    NodeCountOfTree(v);
    && (v.Str? && v.text.Chars? ==> |v.text.chars| <= 30)
    && (v.Object? ==> forall i :: 0 <= i < |v.members| ==> |v.members[i].key| <= 30)
    && AllShort(Children(v))
  }

  predicate AllShort(vs: seq<Value>)
    decreases NodeCountAll(vs), 1
  {
    vs == [] || (Short(vs[0]) && AllShort(vs[1..]))
  }

  function Total(texts: seq<string>): nat {
    if texts == [] then 0 else |texts[0]| + Total(texts[1..])
  }

  lemma {:induction false} JoinedLength(texts: seq<string>)
    ensures |Joined(texts)| <= Total(texts) + |texts|
  {
    if texts != [] {
      JoinedLength(texts[1..]);
    }
  }

  lemma {:induction false} QuoteLength(s: string)
    ensures |Quote(s)| <= 2 * |s| + 2
  {
    if s != [] {
      QuoteLength(s[1..]);
    }
  }

  lemma {:induction false} TotalOfItems(items: seq<string>, texts: seq<string>)
    requires |items| == |texts| && forall i :: 0 <= i < |items| ==> |items[i]| <= |texts[i]| + 63
    ensures Total(items) <= Total(texts) + 63 * |texts|
  {
    if items != [] {
      TotalOfItems(items[1..], texts[1..]);
    }
  }

  lemma ItemsLength(p: Platform, first: Text, second: Text, v: Value)
    requires Prints(p, first, second) && WellFormed(p, v) && Short(v) && v.Object?
    ensures |Joined(SortedTexts(p, v))| <= Total(CanonTexts(p, Children(v))) + 64 * |Children(v)|
  {
    var items, texts := SortedTexts(p, v), CanonTexts(p, Children(v));
    ItemsOf(p, first, second, v);
    forall i | 0 <= i < |items| ensures |items[i]| <= |texts[i]| + 63 {
      QuoteLength(v.members[i].key);
      TextAt(p, Children(v), i);
    }
    TotalOfItems(items, texts);
    JoinedLength(items);
  }

  // Bounds on height, widths and text in terms of the node count.
  lemma {:induction false} SmallTree(p: Platform, first: Text, second: Text, v: Value)
    requires Prints(p, first, second) && WellFormed(p, v) && Short(v)
    ensures Height(v) < NodeCount(v) && |CanonText(p, v)| + 64 <= 128 * NodeCount(v)
    ensures NodeCount(v) <= 64 ==> WidthsOk(v, DEFAULT_LIMITS)
    decreases NodeCount(v), 0
  {
    NodeCountOfTree(v);
    SmallTrees(p, first, second, Children(v));
    if v.Array? {
      JoinedLength(CanonTexts(p, Children(v)));
    } else if v.Object? {
      ItemsLength(p, first, second, v);
    } else if v.Str? && v.text.Chars? {
      QuoteLength(v.text.chars);
    }
  }

  lemma {:induction false} SmallTrees(p: Platform, first: Text, second: Text, vs: seq<Value>)
    requires Prints(p, first, second) && AllWellFormed(p, vs) && AllShort(vs)
    ensures HeightAbove(vs) <= NodeCountAll(vs) && |vs| <= NodeCountAll(vs)
    ensures Total(CanonTexts(p, vs)) + 64 * |vs| <= 128 * NodeCountAll(vs)
    ensures NodeCountAll(vs) <= 64 ==> AllWidthsOk(vs, DEFAULT_LIMITS)
    decreases NodeCountAll(vs), 1
  {
    if vs != [] {
      SmallTree(p, first, second, vs[0]);
      SmallTrees(p, first, second, vs[1..]);
    }
  }

  lemma SmallTreeFits(p: Platform, first: Text, second: Text, v: Value)
    requires Prints(p, first, second) && WellFormed(p, v) && Short(v) && NodeCount(v) <= 64
    ensures |CanonText(p, v)| <= DEFAULT_LIMITS.maxBytes && Structure(v, DEFAULT_LIMITS).Pass?
  {
    SmallTree(p, first, second, v);
    CheckStructureIsExact(v, DEFAULT_LIMITS);
  }
}
