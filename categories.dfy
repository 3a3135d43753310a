/** getCategories (App.js:91-104): the category chips offered above the
    search results. Each product's `categories` cell is read as JSON after
    single quotes become double quotes, or else split on commas; the values of
    all products are concatenated, duplicates dropped as a JavaScript Set drops
    them, falsy values removed, and the first ten kept. */
module Categories {
  import opened Wrappers
  import opened Seqs
  import opened JsString
  import opened Json
  import opened Products
  import opened PyList

  /** The most chips shown */
  const MaxCategories: nat := 10

  /** JavaScript truthiness of a parsed value */
  predicate IsTruthy(v: Json) {
    match v
    case JNull => false
    case JBool(b) => b
    case JNumber(n) => n != 0.0
    case JString(s) => s != ""
    case _ => true
  }

  /** Values a Set compares by content. Every array or object JSON.parse
      returns is a new object, so no two of them are ever the same element. */
  predicate IsScalar(v: Json) {
    !v.JArray? && !v.JObject?
  }

  /** The values one product contributes to the flattened list */
  function RecordCategories(cell: Option<string>): seq<Json> {
    if cell.None? || cell.value == "" then []
    else
      CellValues(cell.value, Parse(ReplaceChar(cell.value, '\'', '"')))
  }

  /** The values of a non-empty cell, given what JSON.parse made of its text
      with single quotes turned into double quotes: an array is spread, any
      other value taken as it is, and a failure splits the original text. */
  function CellValues(raw: string, parsed: Option<Json>): seq<Json> {
    match parsed
    case Some(JArray(xs)) => xs
    case Some(v) => [v]
    case None => JStrings(Map(SplitOn(raw, ','), Trim))
  }

  /** The values one product contributes from its categories cell */
  function ProductValues(p: Product): seq<Json> {
    RecordCategories(p.categories)
  }

  /** products.flatMap(...): every product's values, in product order */
  function AllCategories(ps: seq<Product>): (r: seq<Json>)
    ensures ps == [] ==> r == []
  {
    FlatMap(ps, ProductValues)
  }

  /** flatMap over two catalogues one after the other: the first one's
      values, then the second one's */
  lemma AllCategoriesConcat(ps: seq<Product>, qs: seq<Product>)
    ensures AllCategories(ps + qs) == AllCategories(ps) + AllCategories(qs)
  {
    FlatMapConcat(ps, qs, ProductValues);
  }

  /** A single product contributes the values of its own cell, and nothing
      when that cell is missing or empty */
  lemma AllCategoriesOne(p: Product)
    ensures AllCategories([p]) == RecordCategories(p.categories)
    ensures p.categories.None? || p.categories.value == "" ==> AllCategories([p]) == []
  {
    assert [p][0] == p && [p][1..] == [];
    assert FlatMap([p], ProductValues) == ProductValues(p) + FlatMap([], ProductValues);
  }

  /** [...new Set(xs)]: the first occurrence of every value, in order of first
      occurrence */
  function Dedup(xs: seq<Json>): seq<Json> {
    if xs == [] then []
    else
      var d := Dedup(xs[..|xs| - 1]);
      var x := xs[|xs| - 1];
      if IsScalar(x) && x in d then d else d + [x]
  }

  function GetCategories(ps: seq<Product>): seq<Json> {
    Chips(AllCategories(ps))
  }

  /** [...new Set(all)].filter(Boolean).slice(0, 10) */
  function Chips(all: seq<Json>): seq<Json> {
    var unique := Filter(Dedup(all), IsTruthy);
    if |unique| <= MaxCategories then unique else unique[..MaxCategories]
  }

  /** No scalar value occurs twice */
  predicate NoScalarTwice(d: seq<Json>) {
    forall v | v in d && IsScalar(v) :: multiset(d)[v] <= 1
  }

  /** The Set keeps the head-first order of first insertions, loses no
      value, and holds no scalar twice */
  lemma DedupProperties(xs: seq<Json>)
    ensures Dedup(xs) == FirstSeen(xs)
    ensures IsSubsequence(Dedup(xs), xs)
    ensures forall i | 0 <= i < |xs| :: xs[i] in Dedup(xs)
    ensures NoScalarTwice(Dedup(xs))
  {
    DedupIsFirstSeen(xs);
    DedupOrder(xs);
    DedupKeeps(xs);
    DedupDistinct(xs);
  }

  lemma {:induction false} DedupOrder(xs: seq<Json>)
    ensures IsSubsequence(Dedup(xs), xs)
  {
    if xs != [] {
      var init := xs[..|xs| - 1];
      DedupOrder(init);
      assert xs == init + [xs[|xs| - 1]];
      SubsequenceSnoc(Dedup(init), init, xs[|xs| - 1]);
    }
  }

  lemma {:induction false} DedupKeeps(xs: seq<Json>)
    ensures forall i | 0 <= i < |xs| :: xs[i] in Dedup(xs)
  {
    if xs != [] {
      var init := xs[..|xs| - 1];
      DedupKeeps(init);
      assert forall i | 0 <= i < |xs| - 1 :: xs[i] == init[i];
    }
  }

  lemma {:induction false} DedupDistinct(xs: seq<Json>)
    ensures NoScalarTwice(Dedup(xs))
  {
    if xs != [] {
      var init := xs[..|xs| - 1];
      var x := xs[|xs| - 1];
      var d := Dedup(init);
      DedupDistinct(init);
      if !(IsScalar(x) && x in d) {
        assert multiset(d + [x]) == multiset(d) + multiset{x};
      }
    }
  }

  lemma DedupMembers(xs: seq<Json>, x: Json)
    ensures x in Dedup(xs) <==> x in xs
  {
    DedupOrder(xs);
    DedupKeeps(xs);
    SubsequenceMembers(Dedup(xs), xs);
  }

  // ---------------------------------------------------------------------
  // The order of a Set: the first insertion of a value fixes its place

  /** A Set filled from xs front to back: the first value takes the first
      place and its later copies are not inserted again; an array or object
      is never a copy. Unlike Dedup, which adds one value at a time at the
      back, this reading works head first. */
  function FirstSeen(xs: seq<Json>): seq<Json>
    decreases |xs|
  {
    if xs == [] then []
    else [xs[0]] + FirstSeen(if IsScalar(xs[0]) then Without(xs[1..], xs[0]) else xs[1..])
  }

  /** The Set holds exactly the values of xs */
  lemma {:induction false} FirstSeenMembers(xs: seq<Json>, x: Json)
    ensures x in FirstSeen(xs) <==> x in xs
    decreases |xs|
  {
    if xs != [] {
      var h, t := xs[0], xs[1..];
      assert xs == [h] + t;
      var rest := if IsScalar(h) then Without(t, h) else t;
      FirstSeenMembers(rest, x);
      WithoutMembers(t, h, x);
    }
  }

  lemma FirstSeenCons(h: Json, t: seq<Json>)
    ensures FirstSeen([h] + t) == [h] + FirstSeen(if IsScalar(h) then Without(t, h) else t)
  {
    assert ([h] + t)[0] == h && ([h] + t)[1..] == t;
  }

  /** Inserting one more value at the back: a scalar already present changes
      nothing, anything else takes the last place */
  lemma {:induction false} FirstSeenSnoc(s: seq<Json>, x: Json)
    ensures FirstSeen(s + [x]) == if IsScalar(x) && x in s then FirstSeen(s) else FirstSeen(s) + [x]
    decreases |s|
  {
    if s == [] {
      FirstSeenCons(x, []);
      assert s + [x] == [x] + [];
    } else {
      var h, t := s[0], s[1..];
      assert s == [h] + t;
      if !IsScalar(h) {
        FirstSeenSnoc(t, x);
        OtherHeadStep(h, t, x);
      } else if x == h {
        RepeatedHeadStep(h, t);
      } else {
        var w := Without(t, h);
        FirstSeenSnoc(w, x);
        ConsMembers(h, t, x);
        WithoutMembers(t, h, x);
        if IsScalar(x) && x in w {
          ScalarHeadKeeps(h, t, x);
        } else {
          ScalarHeadGrows(h, t, x);
        }
      }
    }
  }

  lemma OtherHeadStep(h: Json, t: seq<Json>, x: Json)
    requires !IsScalar(h)
    requires FirstSeen(t + [x]) == if IsScalar(x) && x in t then FirstSeen(t) else FirstSeen(t) + [x]
    ensures FirstSeen([h] + t + [x]) == if IsScalar(x) && x in [h] + t then FirstSeen([h] + t) else FirstSeen([h] + t) + [x]
  {
    assert [h] + t + [x] == [h] + (t + [x]);
    FirstSeenCons(h, t);
    FirstSeenCons(h, t + [x]);
    assert [h] + (FirstSeen(t) + [x]) == [h] + FirstSeen(t) + [x];
  }

  lemma RepeatedHeadStep(h: Json, t: seq<Json>)
    requires IsScalar(h)
    ensures FirstSeen([h] + t + [h]) == FirstSeen([h] + t)
  {
    var w := Without(t, h);
    assert Without(t + [h], h) == w by {
      WithoutSnoc(t, h, h);
      assert w + [] == w;
    }
    var u := t + [h];
    assert [h] + t + [h] == [h] + u;
    FirstSeenCons(h, u);
    FirstSeenCons(h, t);
  }

  /** A new scalar head, then a value already present after it */
  lemma ScalarHeadKeeps(h: Json, t: seq<Json>, x: Json)
    requires IsScalar(h) && x != h
    requires FirstSeen(Without(t, h) + [x]) == FirstSeen(Without(t, h))
    ensures FirstSeen([h] + t + [x]) == FirstSeen([h] + t)
  {
    var w := Without(t, h);
    assert Without(t + [x], h) == w + [x] by {
      WithoutSnoc(t, h, x);
    }
    var u := t + [x];
    assert [h] + t + [x] == [h] + u;
    FirstSeenCons(h, u);
    FirstSeenCons(h, t);
  }

  /** A new scalar head, then a value that takes the last place after it */
  lemma ScalarHeadGrows(h: Json, t: seq<Json>, x: Json)
    requires IsScalar(h) && x != h
    requires FirstSeen(Without(t, h) + [x]) == FirstSeen(Without(t, h)) + [x]
    ensures FirstSeen([h] + t + [x]) == FirstSeen([h] + t) + [x]
  {
    var w := Without(t, h);
    assert Without(t + [x], h) == w + [x] by {
      WithoutSnoc(t, h, x);
    }
    var u := t + [x];
    assert [h] + t + [x] == [h] + u;
    FirstSeenCons(h, u);
    FirstSeenCons(h, t);
    var f := FirstSeen(w);
    assert [h] + (f + [x]) == [h] + f + [x];
  }

  lemma ConsMembers(h: Json, t: seq<Json>, x: Json)
    ensures x in [h] + t <==> x == h || x in t
  {
  }

  /** Dedup, built back to front, gives the Set's head-first order */
  lemma {:induction false} DedupIsFirstSeen(xs: seq<Json>)
    ensures Dedup(xs) == FirstSeen(xs)
    decreases |xs|
  {
    if xs != [] {
      var init, x := xs[..|xs| - 1], xs[|xs| - 1];
      assert xs == init + [x];
      DedupIsFirstSeen(init);
      DedupMembers(init, x);
      FirstSeenSnoc(init, x);
    }
  }

  /** r is the first ten of the truthy values in the Set's order, or all of
      them when there are fewer */
  predicate FirstTen(r: seq<Json>, all: seq<Json>) {
    var u := Filter(FirstSeen(all), IsTruthy);
    r <= u && |r| == (if |u| < MaxCategories then |u| else MaxCategories)
  }

  /** What getCategories promises of the chips r drawn from the flattened
      values all: at most ten, each truthy and taken from all, no scalar
      twice, in the order all lists them, and every truthy value present when
      fewer than ten are shown. */
  predicate ChipsSpec(r: seq<Json>, all: seq<Json>) {
    && |r| <= MaxCategories
    && (forall i | 0 <= i < |r| :: IsTruthy(r[i]) && r[i] in all)
    && NoScalarTwice(r)
    && IsSubsequence(r, all)
    && (|r| < MaxCategories ==> forall i | 0 <= i < |all| && IsTruthy(all[i]) :: all[i] in r)
  }

  lemma CategoryChips(ps: seq<Product>)
    ensures ChipsSpec(GetCategories(ps), AllCategories(ps))
    ensures FirstTen(GetCategories(ps), AllCategories(ps))
  {
    ChipsOf(AllCategories(ps));
  }

  lemma ChipsOf(all: seq<Json>)
    ensures ChipsSpec(Chips(all), all)
    ensures FirstTen(Chips(all), all)
  {
    DedupIsFirstSeen(all);
    UniqueTruthy(all);
    TopTen(Filter(Dedup(all), IsTruthy), all);
  }

  /** A value seen again keeps the place of its first sighting: the values
      a, b, a give the chips a, b, in that order */
  lemma RepeatKeepsFirstPlace(a: Json, b: Json)
    requires IsScalar(a) && IsTruthy(a) && IsTruthy(b) && a != b
    ensures Chips([a, b, a]) == [a, b]
  {
    assert [a, b, a][..2] == [a, b] && [a, b][..1] == [a] && [a][..0] == [];
    assert Dedup([a]) == [a];
    assert Dedup([a, b]) == [a, b];
    assert Filter([b], IsTruthy) == [b];
  }

  /** Slicing the unique truthy values to ten keeps what they promise */
  lemma TopTen(u: seq<Json>, all: seq<Json>)
    requires IsSubsequence(u, all) && NoScalarTwice(u)
    requires forall i | 0 <= i < |u| :: IsTruthy(u[i])
    requires forall i | 0 <= i < |all| && IsTruthy(all[i]) :: all[i] in u
    ensures ChipsSpec(if |u| <= MaxCategories then u else u[..MaxCategories], all)
  {
    if |u| <= MaxCategories {
      TopTenShort(u, all);
    } else {
      TopTenLong(u, all);
    }
  }

  lemma TopTenShort(u: seq<Json>, all: seq<Json>)
    requires |u| <= MaxCategories
    requires IsSubsequence(u, all) && NoScalarTwice(u)
    requires forall i | 0 <= i < |u| :: IsTruthy(u[i])
    requires forall i | 0 <= i < |all| && IsTruthy(all[i]) :: all[i] in u
    ensures ChipsSpec(u, all)
  {
    SubsequenceMembers(u, all);
  }

  lemma TopTenLong(u: seq<Json>, all: seq<Json>)
    requires |u| > MaxCategories
    requires IsSubsequence(u, all) && NoScalarTwice(u)
    requires forall i | 0 <= i < |u| :: IsTruthy(u[i])
    ensures ChipsSpec(u[..MaxCategories], all)
  {
    var r := u[..MaxCategories];
    PrefixKeeps(u, all, MaxCategories);
    assert forall i | 0 <= i < |r| :: r[i] == u[i];
  }

  /** The deduplicated truthy values: a subsequence of the input with no
      scalar twice, holding every truthy input value */
  lemma UniqueTruthy(all: seq<Json>)
    ensures var u := Filter(Dedup(all), IsTruthy);
      && IsSubsequence(u, all)
      && NoScalarTwice(u)
      && (forall i | 0 <= i < |u| :: IsTruthy(u[i]))
      && (forall i | 0 <= i < |all| && IsTruthy(all[i]) :: all[i] in u)
  {
    var d := Dedup(all);
    var u := Filter(d, IsTruthy);
    DedupProperties(all);
    FilterIsSubsequence(d, IsTruthy);
    SubsequenceTrans(u, d, all);
    forall v | v in u && IsScalar(v) ensures multiset(u)[v] <= 1 {
      FilterCounts(d, IsTruthy, v);
    }
  }

  /** Taking a prefix keeps order, membership and distinctness */
  lemma PrefixKeeps(u: seq<Json>, all: seq<Json>, k: nat)
    requires k <= |u| && IsSubsequence(u, all) && NoScalarTwice(u)
    ensures IsSubsequence(u[..k], all) && NoScalarTwice(u[..k])
    ensures forall i | 0 <= i < k :: u[..k][i] in all
  {
    var r := u[..k];
    PrefixIsSubsequence(u, k);
    SubsequenceTrans(r, u, all);
    SubsequenceMembers(r, all);
    forall v | v in r && IsScalar(v) ensures multiset(r)[v] <= 1 {
      assert u == r + u[k..];
      assert multiset(u) == multiset(r) + multiset(u[k..]);
    }
  }

  /** A Python-style list of plain names gives exactly those names */
  lemma PythonListCategories(xs: seq<string>, gap: string)
    requires AllJsonSpace(gap) && '\'' !in gap
    requires forall i | 0 <= i < |xs| :: IsPlainText(xs[i])
    ensures RecordCategories(Some(SingleQuotedList(xs, gap))) == JStrings(xs)
  {
    var raw := SingleQuotedList(xs, gap);
    SingleQuotedIsJson(xs, gap);
    ParseEncodeStrings(xs, gap);
    assert raw[0] == '[';
    RecordOfText(raw);
    CellValuesOfArray(raw, JStrings(xs));
  }

  /** A non-empty cell contributes what its text reads as */
  lemma RecordOfText(raw: string)
    requires raw != ""
    ensures RecordCategories(Some(raw)) == CellValues(raw, Parse(ReplaceChar(raw, '\'', '"')))
  {
  }

  /** A JSON array is spread into its elements */
  lemma CellValuesOfArray(raw: string, vs: seq<Json>)
    ensures CellValues(raw, Some(JArray(vs))) == vs
  {
  }

  /** A bare list of names is not JSON: it is split on commas and each
      name trimmed, and joining the names back gives the cell's text up to
      the space around them. */
  lemma BareListCategories(raw: string)
    requires raw != [] && 'A' <= raw[0] <= 'Z'
    ensures var r := RecordCategories(Some(raw));
      && r == JStrings(Map(SplitOn(raw, ','), Trim))
      && forall i | 0 <= i < |r| :: r[i].JString? && ',' !in r[i].str && Trim(r[i].str) == r[i].str
  {
    CapitalIsNotJson(ReplaceChar(raw, '\'', '"'));
    RecordOfText(raw);
    var pieces := SplitOn(raw, ',');
    forall i | 0 <= i < |pieces| ensures ',' !in Trim(pieces[i]) && Trim(Trim(pieces[i])) == Trim(pieces[i]) {
      TrimTwice(pieces[i]);
    }
  }

  /** A text that starts with a capital letter is not JSON */
  lemma CapitalIsNotJson(a: string)
    requires a != [] && 'A' <= a[0] <= 'Z'
    ensures Parse(a) == None
  {
    CapitalIsNoKeyword(a);
    CapitalIsNoNumber(a);
    assert ParseValue(a) == None;
    NoValueNoParse(a);
  }

  lemma CapitalIsNoKeyword(a: string)
    requires a != [] && 'A' <= a[0] <= 'Z'
    ensures !("true" <= a) && !("false" <= a) && !("null" <= a)
  {
    PrefixHead("true", a);
    PrefixHead("false", a);
    PrefixHead("null", a);
  }

  lemma PrefixHead(p: string, a: string)
    requires p != [] && a != []
    ensures p <= a ==> p[0] == a[0]
  {
  }

  lemma CapitalIsNoNumber(a: string)
    requires a != [] && 'A' <= a[0] <= 'Z'
    ensures ParseNumber(a) == None
  {
    assert DigitRun(a) == 0;
  }

  lemma NoValueNoParse(a: string)
    requires a != [] && !IsJsonSpace(a[0]) && ParseValue(a) == None
    ensures Parse(a) == None
  {
    assert SkipSpace(a) == a;
  }

  /** `['Living Room', 'Sofas']` gives the two names */
  lemma LivingRoomSofas(a: string, b: string)
    requires a == "Living Room" && b == "Sofas"
    ensures RecordCategories(Some(SingleQuotedList([a, b], " "))) == [JString(a), JString(b)]
  {
    assert IsPlainText(a) && IsPlainText(b);
    var names := [a, b];
    assert forall i | 0 <= i < |names| :: IsPlainText(names[i]);
    PythonListCategories(names, " ");
    assert JStrings(names) == [JString(a), JString(b)] by {
      assert names[1..] == [b];
    }
  }
}
