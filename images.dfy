/** parseImages (App.js:66-89): a product's `images` CSV cell, which holds a
    JSON array, a Python-style list in single quotes, or a bare comma-separated
    list of URLs, becomes a list of URLs. A strict tier cleans the text and
    parses it as JSON; whenever that fails a lenient tier splits the
    ORIGINAL text on commas. */
module Images {
  import opened Wrappers
  import opened Seqs
  import opened JsString
  import opened Json
  import opened PyList

  /** A CSV cell that is missing or empty: JavaScript's `!imgField` */
  predicate IsFalsy(field: Option<string>) {
    field.None? || field.value == ""
  }

  // ---------------------------------------------------------------------
  // The cleaning chain of the strict tier (App.js:70-74)

  /** The `\s*\]` part of `/,\s*\]/`: white space, then a closing bracket.
      A greedy `\s*` that backs off only ever leaves a space before the
      bracket, so the longest space run is the only one that can match. */
  predicate ClosesAfterSpace(t: string) {
    LeadingSpace(t) < |t| && t[LeadingSpace(t)] == ']'
  }

  /** `/,\s*\]/` matches at the start of t */
  predicate StartsCommaBracket(t: string) {
    t != [] && t[0] == ',' && ClosesAfterSpace(t[1..])
  }

  predicate NoCommaBracket(s: string) {
    forall i | 0 <= i < |s| :: !StartsCommaBracket(s[i..])
  }

  /** s.replace(/,\s*\]/g, '"]'): matches are taken left to right without
      overlapping, and each becomes a double quote and a bracket. */
  function ReplaceCommaBracket(s: string): string
    decreases |s|
  {
    if s == [] then []
    else if StartsCommaBracket(s) then "\"]" + ReplaceCommaBracket(s[LeadingSpace(s[1..]) + 2..])
    else [s[0]] + ReplaceCommaBracket(s[1..])
  }

  /** The replacement leaves no match behind */
  lemma {:induction false} ReplaceCommaBracketComplete(s: string)
    ensures NoCommaBracket(ReplaceCommaBracket(s))
    decreases |s|
  {
    if s != [] {
      var r := ReplaceCommaBracket(s);
      if StartsCommaBracket(s) {
        var rest := s[LeadingSpace(s[1..]) + 2..];
        ReplaceCommaBracketComplete(rest);
        var tail := ReplaceCommaBracket(rest);
        assert r == "\"]" + tail;
        forall i | 0 <= i < |r| ensures !StartsCommaBracket(r[i..]) {
          if i >= 2 {
            assert r[i..] == tail[i - 2..];
          }
        }
      } else {
        ReplaceCommaBracketComplete(s[1..]);
        var tail := ReplaceCommaBracket(s[1..]);
        assert r == [s[0]] + tail;
        forall i | 0 <= i < |r| ensures !StartsCommaBracket(r[i..]) {
          if i >= 1 {
            assert r[i..] == tail[i - 1..];
          } else {
            assert r[1..] == tail;
            if s[0] == ',' {
              UnclosedStaysUnclosed(s[1..]);
            }
          }
        }
      }
    }
  }

  /** A text that does not open with space-then-bracket still does not after
      the replacement */
  lemma {:induction false} UnclosedStaysUnclosed(t: string)
    requires !ClosesAfterSpace(t)
    ensures !ClosesAfterSpace(ReplaceCommaBracket(t))
    decreases |t|
  {
    if t != [] {
      var r := ReplaceCommaBracket(t);
      if IsSpace(t[0]) {
        assert r == [t[0]] + ReplaceCommaBracket(t[1..]);
        UnclosedStaysUnclosed(t[1..]);
        assert r[1..] == ReplaceCommaBracket(t[1..]);
      } else {
        assert r[0] == t[0] || r[0] == '"';
      }
    }
  }

  /** Where there is nothing to replace, nothing changes */
  lemma {:induction false} ReplaceCommaBracketIdentity(s: string)
    requires NoCommaBracket(s)
    ensures ReplaceCommaBracket(s) == s
    decreases |s|
  {
    if s != [] {
      assert s[0..] == s;
      assert forall i | 0 <= i < |s| - 1 :: s[1..][i..] == s[i + 1..];
      ReplaceCommaBracketIdentity(s[1..]);
    }
  }

  /** The replacement brings in no character but the double quote */
  lemma {:induction false} ReplaceCommaBracketKeeps(s: string, c: char)
    requires c != '"' && c !in s
    ensures c !in ReplaceCommaBracket(s)
    decreases |s|
  {
    if s != [] {
      if StartsCommaBracket(s) {
        var k := LeadingSpace(s[1..]);
        assert s[k + 1] == ']';
        assert forall x | x in s[k + 2..] :: x in s;
        ReplaceCommaBracketKeeps(s[k + 2..], c);
      } else {
        assert forall x | x in s[1..] :: x in s;
        ReplaceCommaBracketKeeps(s[1..], c);
      }
    }
  }

  /** A text whose only ']' is its last character, preceded by neither a
      comma nor space, holds no match */
  lemma OnlyFinalBracket(s: string)
    requires |s| >= 2 && s[|s| - 1] == ']' && ']' !in s[..|s| - 1]
    requires s[|s| - 2] != ',' && !IsSpace(s[|s| - 2])
    ensures NoCommaBracket(s)
  {
    forall i | 0 <= i < |s| && s[i] == ','
      ensures !ClosesAfterSpace(s[i + 1..])
    {
      var t := s[i + 1..];
      var k := LeadingSpace(t);
      assert k > 0 ==> IsSpace(s[i + k]) by {
        if k > 0 {
          assert s[i + k] == t[..k][k - 1];
        }
      }
      assert i + 1 + k < |s| - 1 ==> t[k] == s[..|s| - 1][i + 1 + k];
    }
    assert forall i | 0 <= i < |s| :: s[i..][1..] == s[i + 1..];
  }

  /** s.replace(/,\s*$/g, ''): a comma followed only by space at the very
      end goes, together with that space; otherwise s is kept as it is. */
  function StripTrailingComma(s: string): (r: string)
    ensures r <= s
    ensures r == s || (|r| < |s| && s[|r|] == ',' && AllSpace(s[|r| + 1..]))
    ensures r == s ==>
      forall i | 0 <= i < |s| && s[i] == ',' :: !AllSpace(s[i + 1..])
  {
    var k := TrailingSpace(s);
    forall i | 0 <= i < |s| && s[i] == ',' && AllSpace(s[i + 1..])
      ensures i == |s| - 1 - k
    {
      TrailingSpaceCovers(s, i + 1);
      SpaceSuffixAt(s, k);
    }
    if k < |s| && s[|s| - 1 - k] == ',' then
      assert s[|s| - k..] == s[|s| - 1 - k + 1..];
      s[..|s| - 1 - k]
    else s
  }

  lemma StripTrailingCommaOf(p: string, w: string)
    requires AllSpace(w)
    ensures StripTrailingComma(p + [','] + w) == p
  {
    var s := p + [','] + w;
    TrailingSpaceBefore(p + [','], w);
    assert TrailingSpace(p + [',']) == 0;
    assert s[..|p|] == p;
  }

  /** cleanedString (App.js:70-74) */
  function CleanImageField(raw: string): string {
    Trim(StripTrailingComma(ReplaceCommaBracket(ReplaceChar(raw, '\'', '"'))))
  }

  // ---------------------------------------------------------------------
  // The strict tier (App.js:76-81)

  predicate NonEmptyText(u: string) {
    |u| > 0
  }

  /** The strict tier on a cleaned text: None where the source throws or does
      not take this path, and so falls through to the lenient tier. Parsing
      fails, or `url.trim()` meets an element that is not a string. */
  function StrictImages(cleaned: string): Option<seq<string>> {
    if cleaned == [] || cleaned[0] != '[' then None
    else
      match Parse(cleaned)
      case None => None
      case Some(v) =>
        if v.JArray? then
          if AllStrings(v.items) then Some(Filter(Map(Map(v.items, AsText), Trim), NonEmptyText))
          else None
        else
          // `[parsed]`: a text opening with '[' never parses to a non-array
          LeadingBracketIsArray(cleaned);
          assert false;
          None
  }

  // ---------------------------------------------------------------------
  // The lenient tier (App.js:86-88)

  /** url.trim().replace(/'/g, '').replace(/"/g, '') */
  function CleanPiece(piece: string): string {
    RemoveChar(RemoveChar(Trim(piece), '\''), '"')
  }

  /** A piece written as a quoted URL, with space before it, cleans to the URL */
  lemma CleanPieceQuoted(lead: string, x: string)
    requires AllSpace(lead) && '\'' !in x && '"' !in x
    ensures CleanPiece(lead + "'" + x + "'") == x
  {
    var q := "'" + x + "'";
    assert Trim(lead + "'" + x + "'") == q by {
      assert lead + "'" + x + "'" == lead + q + [];
      TrimExact(lead, q, []);
    }
    assert RemoveChar(q, '\'') == x by {
      assert q == "'" + (x + "'");
      QuotedUnquoted(x);
    }
    RemoveCharAbsent(x, '"');
  }

  predicate KeepPiece(u: string) {
    |u| > 0 && u != "'" && u != "\""
  }

  /** Every URL of the lenient tier is non-empty and free of quotes */
  function FallbackImages(raw: string): (r: seq<string>)
    ensures forall i | 0 <= i < |r| :: r[i] != "" && '\'' !in r[i] && '"' !in r[i]
  {
    var pieces := SplitOn(raw, ',');
    var cleaned := Map(pieces, CleanPiece);
    assert forall j | 0 <= j < |cleaned| :: '\'' !in cleaned[j] && '"' !in cleaned[j] by {
      forall j | 0 <= j < |cleaned| ensures '\'' !in cleaned[j] && '"' !in cleaned[j] {
        CleanPieceUnquoted(pieces[j]);
      }
    }
    Filter(cleaned, KeepPiece)
  }

  /** A cleaned piece holds no quote of either kind */
  lemma CleanPieceUnquoted(piece: string)
    ensures '\'' !in CleanPiece(piece) && '"' !in CleanPiece(piece)
  {
    RemoveCharMembers(Trim(piece), '\'');
    RemoveCharMembers(RemoveChar(Trim(piece), '\''), '"');
  }

  /** The lenient tier keeps the order of the pieces and loses none that is
      non-empty once cleaned */
  lemma FallbackOrder(raw: string)
    ensures IsSubsequence(FallbackImages(raw), Map(SplitOn(raw, ','), CleanPiece))
    ensures var pieces := SplitOn(raw, ',');
      forall j | 0 <= j < |pieces| && CleanPiece(pieces[j]) != "" ::
        CleanPiece(pieces[j]) in FallbackImages(raw)
    ensures var cleaned := Map(SplitOn(raw, ','), CleanPiece);
      forall u :: multiset(FallbackImages(raw))[u] == if KeepPiece(u) then multiset(cleaned)[u] else 0
  {
    var cleaned := Map(SplitOn(raw, ','), CleanPiece);
    FilterIsSubsequence(cleaned, KeepPiece);
    forall u ensures multiset(Filter(cleaned, KeepPiece))[u] == if KeepPiece(u) then multiset(cleaned)[u] else 0 {
      FilterCounts(cleaned, KeepPiece, u);
    }
    forall j | 0 <= j < |cleaned| && cleaned[j] != "" ensures KeepPiece(cleaned[j]) {
      CleanPieceUnquoted(SplitOn(raw, ',')[j]);
      assert cleaned[j] != "'" && cleaned[j] != "\"";
    }
  }

  /** A bare pair of quoted URLs with a trailing comma splits into them */
  lemma BareQuotedSplit(a: string, b: string)
    requires ',' !in a && ',' !in b
    ensures SplitOn("'" + a + "', '" + b + "',", ',') == ["'" + a + "'", " '" + b + "'", ""]
  {
    var p0, p1 := "'" + a + "'", " '" + b + "'";
    var pieces := [p0, p1, ""];
    assert Join(pieces, ',') == "'" + a + "', '" + b + "'," by {
      assert [p1, ""][1..] == [""];
      assert pieces[1..] == [p1, ""];
      assert Join([p1, ""], ',') == p1 + [','] + "";
      assert Join(pieces, ',') == p0 + [','] + (p1 + [','] + "");
    }
    assert forall i | 0 <= i < 3 :: ',' !in pieces[i];
    SplitJoin(pieces, ',');
  }

  // ---------------------------------------------------------------------
  // parseImages

  function ParseImages(field: Option<string>): seq<string> {
    if IsFalsy(field) then []
    else
      match StrictImages(CleanImageField(field.value))
      case Some(urls) => urls
      case None => FallbackImages(field.value)
  }

  /** A missing or empty cell has no images */
  lemma FalsyHasNoImages(field: Option<string>)
    requires IsFalsy(field)
    ensures ParseImages(field) == []
  {
  }

  /** Neither tier ever returns an empty URL */
  lemma ImagesNonEmpty(field: Option<string>)
    ensures forall i | 0 <= i < |ParseImages(field)| :: ParseImages(field)[i] != ""
  {
    if !IsFalsy(field) {
      var s := StrictImages(CleanImageField(field.value));
      if s.Some? {
        StrictNonEmpty(CleanImageField(field.value));
      }
    }
  }

  lemma StrictNonEmpty(cleaned: string)
    requires StrictImages(cleaned).Some?
    ensures forall i | 0 <= i < |StrictImages(cleaned).value| :: StrictImages(cleaned).value[i] != ""
  {
  }

  /** When the cleaned text is a JSON array of strings, the result is those
      strings trimmed, the empty ones dropped, in their order. */
  lemma StrictTier(raw: string, xs: seq<string>)
    requires raw != ""
    requires var c := CleanImageField(raw); c != [] && c[0] == '['
    requires Parse(CleanImageField(raw)) == Some(JArray(JStrings(xs)))
    ensures var r := ParseImages(Some(raw));
      && (forall i | 0 <= i < |r| :: r[i] != "" && Trim(r[i]) == r[i])
      && IsSubsequence(r, Map(xs, Trim))
      && (forall i | 0 <= i < |xs| && Trim(xs[i]) != "" :: Trim(xs[i]) in r)
    ensures ParseImages(Some(raw)) == Filter(Map(xs, Trim), NonEmptyText)
    ensures forall u :: multiset(ParseImages(Some(raw)))[u] == if u != "" then multiset(Map(xs, Trim))[u] else 0
  {
    var r := Filter(Map(xs, Trim), NonEmptyText);
    StrictOfStrings(CleanImageField(raw), xs);
    StrictChosen(raw, r);
    TrimmedUrls(xs);
  }

  /** What the strict tier makes of an array of strings */
  lemma TrimmedUrls(xs: seq<string>)
    ensures var r := Filter(Map(xs, Trim), NonEmptyText);
      && (forall i | 0 <= i < |r| :: r[i] != "" && Trim(r[i]) == r[i])
      && IsSubsequence(r, Map(xs, Trim))
      && (forall i | 0 <= i < |xs| && Trim(xs[i]) != "" :: Trim(xs[i]) in r)
    ensures forall u :: multiset(Filter(Map(xs, Trim), NonEmptyText))[u] == if u != "" then multiset(Map(xs, Trim))[u] else 0
  {
    var trimmed := Map(xs, Trim);
    FilterIsSubsequence(trimmed, NonEmptyText);
    TrimmedAreFixed(xs);
    NonEmptyCounts(trimmed);
  }

  /** Every kept URL is its own trim */
  lemma TrimmedAreFixed(xs: seq<string>)
    ensures var r := Filter(Map(xs, Trim), NonEmptyText);
      forall i | 0 <= i < |r| :: Trim(r[i]) == r[i]
  {
    var trimmed := Map(xs, Trim);
    var r := Filter(trimmed, NonEmptyText);
    forall i | 0 <= i < |r| ensures Trim(r[i]) == r[i] {
      var j :| 0 <= j < |trimmed| && trimmed[j] == r[i];
      TrimTwice(xs[j]);
    }
  }

  /** Dropping the empty strings keeps every copy of every other one */
  lemma NonEmptyCounts(s: seq<string>)
    ensures forall u :: multiset(Filter(s, NonEmptyText))[u] == if u != "" then multiset(s)[u] else 0
  {
    forall u ensures multiset(Filter(s, NonEmptyText))[u] == if u != "" then multiset(s)[u] else 0 {
      FilterCounts(s, NonEmptyText, u);
    }
  }

  /** The strict tier's answer is final whenever it has one */
  lemma StrictChosen(raw: string, urls: seq<string>)
    requires raw != "" && StrictImages(CleanImageField(raw)) == Some(urls)
    ensures ParseImages(Some(raw)) == urls
  {
  }

  /** The strict tier on a text that parses to an array of strings */
  lemma StrictOfStrings(cleaned: string, xs: seq<string>)
    requires cleaned != [] && cleaned[0] == '['
    requires Parse(cleaned) == Some(JArray(JStrings(xs)))
    ensures StrictImages(cleaned) == Some(Filter(Map(xs, Trim), NonEmptyText))
  {
    var items := JStrings(xs);
    assert AllStrings(items);
    assert Map(items, AsText) == xs;
  }

  /** Whatever makes the strict tier fail (no leading bracket, a text that is
      not JSON, an element that is not a string) leaves the lenient tier to
      split the original text. */
  lemma StrictFailureFallsBack(raw: string)
    requires raw != ""
    requires var c := CleanImageField(raw);
      || c == [] || c[0] != '['
      || Parse(c).None?
      || (Parse(c).value.JArray? && !AllStrings(Parse(c).value.items))
    ensures ParseImages(Some(raw)) == FallbackImages(raw)
  {
  }

  /** A cell without '[' always goes to the lenient tier */
  lemma NoBracketFallsBack(raw: string)
    requires raw != "" && '[' !in raw
    ensures ParseImages(Some(raw)) == FallbackImages(raw)
  {
    var a := ReplaceChar(raw, '\'', '"');
    assert '[' !in a;
    ReplaceCommaBracketKeeps(a, '[');
    var b := ReplaceCommaBracket(a);
    var c := StripTrailingComma(b);
    assert forall x | x in c :: x in b;
    assert '[' !in Trim(c);
  }

  /** Text with none of the characters that delimit a bare URL list */
  predicate IsBareText(x: string) {
    x != "" && forall i | 0 <= i < |x| :: x[i] != ',' && x[i] != '[' && x[i] != '\'' && x[i] != '"'
  }

  /** A bare list of two quoted URLs with a trailing comma (no brackets)
      gives the two URLs */
  lemma BareQuotedPair(a: string, b: string)
    requires IsBareText(a) && IsBareText(b)
    ensures ParseImages(Some("'" + a + "', '" + b + "',")) == [a, b]
  {
    var raw := "'" + a + "', '" + b + "',";
    assert '[' !in raw;
    assert FallbackImages(raw) == [a, b] by {
      BareQuotedFallback(a, b);
    }
    NoBracketFallsBack(raw);
  }

  lemma BareQuotedFallback(a: string, b: string)
    requires IsBareText(a) && IsBareText(b)
    ensures FallbackImages("'" + a + "', '" + b + "',") == [a, b]
  {
    var pieces := ["'" + a + "'", " '" + b + "'", ""];
    BareQuotedSplit(a, b);
    var cleaned := Map(pieces, CleanPiece);
    BareQuotedPieces(a, b, cleaned);
    KeepTwo(cleaned, a, b);
  }

  lemma BareQuotedPieces(a: string, b: string, cleaned: seq<string>)
    requires IsBareText(a) && IsBareText(b)
    requires cleaned == Map(["'" + a + "'", " '" + b + "'", ""], CleanPiece)
    ensures |cleaned| == 3 && cleaned[0] == a && cleaned[1] == b && cleaned[2] == ""
  {
    CleanFirstPiece(a);
    CleanLaterPiece(b);
    CleanEmptyPiece();
    CleanThree("'" + a + "'", " '" + b + "'", "", a, b, "");
  }

  /** Cleaning three pieces one by one */
  lemma CleanThree(p0: string, p1: string, p2: string, c0: string, c1: string, c2: string)
    requires CleanPiece(p0) == c0 && CleanPiece(p1) == c1 && CleanPiece(p2) == c2
    ensures Map([p0, p1, p2], CleanPiece) == [c0, c1, c2]
  {
  }

  lemma CleanFirstPiece(a: string)
    requires IsBareText(a)
    ensures CleanPiece("'" + a + "'") == a
  {
    CleanPieceQuoted("", a);
    assert "" + "'" + a + "'" == "'" + a + "'";
  }

  lemma CleanLaterPiece(b: string)
    requires IsBareText(b)
    ensures CleanPiece(" '" + b + "'") == b
  {
    assert AllSpace(" ");
    CleanPieceQuoted(" ", b);
    assert " '" == " " + "'";
  }

  lemma CleanEmptyPiece()
    ensures CleanPiece("") == ""
  {
    assert Trim("") == "";
  }

  lemma KeepTwo(cleaned: seq<string>, a: string, b: string)
    requires IsBareText(a) && IsBareText(b)
    requires |cleaned| == 3 && cleaned[0] == a && cleaned[1] == b && cleaned[2] == ""
    ensures Filter(cleaned, KeepPiece) == [a, b]
  {
    assert KeepPiece(a) && KeepPiece(b) by {
      assert a[0] != '\'' && a[0] != '"' && b[0] != '\'' && b[0] != '"';
    }
    assert cleaned[1..][1..] == [""];
    assert Filter(cleaned[1..][1..], KeepPiece) == [];
  }

  // ---------------------------------------------------------------------
  // Round trips: the two list notations of a cell give back their URLs

  /** A URL as the strict tier returns it: non-empty, trimmed, and free of the
      characters the cleaning treats specially */
  predicate IsCleanUrl(x: string) {
    x != "" && Trim(x) == x && '\'' !in x && ']' !in x
  }

  /** A cell the cleaning turns into the JSON array of xs gives xs back */
  lemma RoundTripThroughJson(raw: string, xs: seq<string>, gap: string)
    requires AllJsonSpace(gap) && ']' !in gap
    requires forall i | 0 <= i < |xs| :: IsCleanUrl(xs[i])
    requires ReplaceChar(raw, '\'', '"') == EncodeStrings(xs, gap)
    ensures ParseImages(Some(raw)) == xs
  {
    var e := EncodeStrings(xs, gap);
    assert CleanImageField(raw) == e by {
      assert |raw| == |e|;
      CleanEncoded(xs, gap);
    }
    assert StrictImages(e) == Some(Filter(Map(xs, Trim), NonEmptyText)) by {
      ParseEncodeStrings(xs, gap);
      StrictOfStrings(e, xs);
    }
    assert Filter(Map(xs, Trim), NonEmptyText) == xs by {
      assert Map(xs, Trim) == xs;
      FilterAll(xs, NonEmptyText);
    }
    StrictChosen(raw, xs);
  }

  /** The cleaning leaves an encoded array of clean URLs as it is */
  lemma CleanEncoded(xs: seq<string>, gap: string)
    requires ']' !in gap
    requires forall i | 0 <= i < |xs| :: ']' !in xs[i]
    ensures var e := EncodeStrings(xs, gap);
      Trim(StripTrailingComma(ReplaceCommaBracket(e))) == e
  {
    var e := EncodeStrings(xs, gap);
    EncodedHasNoCommaBracket(xs, gap);
    ReplaceCommaBracketIdentity(e);
    ClosedIsClean(e);
  }

  lemma EncodedHasNoCommaBracket(xs: seq<string>, gap: string)
    requires ']' !in gap
    requires forall i | 0 <= i < |xs| :: ']' !in xs[i]
    ensures NoCommaBracket(EncodeStrings(xs, gap))
  {
    var e := EncodeStrings(xs, gap);
    var items := EncodeItems(xs, gap);
    EncodeItemsFree(xs, gap, ']');
    assert e[..|e| - 1] == "[" + items;
    if xs != [] {
      EncodeItemsEnd(xs, gap);
      assert e[|e| - 2] == items[|items| - 1];
    }
    OnlyFinalBracket(e);
  }

  /** A text that opens with '[' and closes with ']' keeps its ends through
      the comma strip and the trim */
  lemma ClosedIsClean(e: string)
    requires |e| >= 2 && e[0] == '[' && e[|e| - 1] == ']'
    ensures Trim(StripTrailingComma(e)) == e
  {
    assert StripTrailingComma(e) == e;
    TrimExact([], e, []);
    assert [] + e + [] == e;
  }

  /** A JSON array of clean URLs gives them back */
  lemma JsonArrayRoundTrip(xs: seq<string>, gap: string)
    requires AllJsonSpace(gap) && ']' !in gap && '\'' !in gap
    requires forall i | 0 <= i < |xs| :: IsCleanUrl(xs[i])
    ensures ParseImages(Some(EncodeStrings(xs, gap))) == xs
  {
    var e := EncodeStrings(xs, gap);
    EncodeItemsFree(xs, gap, '\'');
    assert '\'' !in e;
    ReplaceCharAbsent(e, '\'', '"');
    RoundTripThroughJson(e, xs, gap);
  }

  /** A Python-style list of clean URLs in single quotes gives them back */
  lemma PythonListRoundTrip(xs: seq<string>, gap: string)
    requires AllJsonSpace(gap) && ']' !in gap && '\'' !in gap
    requires forall i | 0 <= i < |xs| :: IsCleanUrl(xs[i]) && IsPlainText(xs[i])
    ensures ParseImages(Some(SingleQuotedList(xs, gap))) == xs
  {
    SingleQuotedIsJson(xs, gap);
    RoundTripThroughJson(SingleQuotedList(xs, gap), xs, gap);
  }
  
  // ---------------------------------------------------------------------
  // A trailing comma inside the brackets

  /** A text without ']' holds no match */
  lemma NoBracketNoMatch(s: string)
    requires ']' !in s
    ensures NoCommaBracket(s)
  {
    forall i | 0 <= i < |s| ensures !StartsCommaBracket(s[i..]) {
      var t := s[i..][1..];
      if |t| > 0 {
        assert LeadingSpace(t) < |t| ==> t[LeadingSpace(t)] == s[i + 1 + LeadingSpace(t)];
      }
    }
  }

  /** `,\s*\]` inside a text that had no match: the comma and the space
      turn into a double quote, they are not removed. */
  lemma {:induction false} CommaBracketBecomesQuote(s: string, w: string)
    requires NoCommaBracket(s) && AllSpace(w)
    ensures ReplaceCommaBracket(s + ([','] + w + "]")) == s + "\"]"
    decreases |s|
  {
    var x := [','] + w + "]";
    if s == [] {
      assert s + x == x;
      CommaBracketAlone(w);
    } else {
      NoCommaBracketTail(s);
      CommaBracketBecomesQuote(s[1..], w);
      NoMatchAtHead(s, x);
      ReplaceStep(s, x, s[1..] + "\"]");
      assert [s[0]] + (s[1..] + "\"]") == s + "\"]";
    }
  }

  lemma CommaBracketAlone(w: string)
    requires AllSpace(w)
    ensures ReplaceCommaBracket([','] + w + "]") == "\"]"
  {
    var x := [','] + w + "]";
    LeadingSpaceAfter(w, "]");
    assert x[1..] == w + "]";
    assert x[|w| + 2..] == [];
  }

  lemma NoCommaBracketTail(s: string)
    requires s != [] && NoCommaBracket(s)
    ensures NoCommaBracket(s[1..])
  {
    assert forall i | 0 <= i < |s| - 1 :: s[1..][i..] == s[i + 1..];
  }

  /** Where no match starts, the first character is copied */
  lemma ReplaceStep(s: string, x: string, out: string)
    requires s != [] && !StartsCommaBracket(s + x)
    requires ReplaceCommaBracket(s[1..] + x) == out
    ensures ReplaceCommaBracket(s + x) == [s[0]] + out
  {
    assert (s + x)[1..] == s[1..] + x;
    assert (s + x)[0] == s[0];
  }

  /** Appending a comma-led text to one with no match adds no match at its head */
  lemma NoMatchAtHead(s: string, x: string)
    requires s != [] && NoCommaBracket(s) && x != [] && x[0] == ','
    ensures !StartsCommaBracket(s + x)
  {
    if s[0] == ',' {
      assert s[0..] == s;
      var t := s[1..];
      assert (s + x)[1..] == t + x;
      if LeadingSpace(t) < |t| {
        LeadingSpaceBefore(t, x);
      } else {
        LeadingSpaceAfter(t, x);
        assert LeadingSpace(x) == 0;
      }
    }
  }

  /** A Python-style list with a comma before its bracket: the strict tier
      fails on it, so the lenient tier splits the original text */
  lemma TrailingCommaFallsBack(xs: seq<string>, gap: string)
    requires |xs| >= 1 && AllJsonSpace(gap) && '\'' !in gap && ']' !in gap
    requires forall i | 0 <= i < |xs| :: IsPlainText(xs[i]) && ']' !in xs[i]
    ensures var raw := "[" + SingleQuotedItems(xs, gap) + ",]";
      ParseImages(Some(raw)) == FallbackImages(raw)
  {
    var raw := "[" + SingleQuotedItems(xs, gap) + ",]";
    var items := EncodeItems(xs, gap);
    var c := "[" + items + "\"]";
    TrailingCommaSwapped(xs, gap);
    TrailingCommaReplaced(xs, gap);
    EncodeItemsEnd(xs, gap);
    ClosedIsClean(c);
    QuoteBeforeBracketRejected(xs, gap);
    StrictFailureFallsBack(raw);
  }

  lemma TrailingCommaSwapped(xs: seq<string>, gap: string)
    requires '\'' !in gap
    requires forall i | 0 <= i < |xs| :: IsPlainText(xs[i])
    ensures ReplaceChar("[" + SingleQuotedItems(xs, gap) + ",]", '\'', '"') == "[" + EncodeItems(xs, gap) + ",]"
  {
    SingleQuotedItemsAsJson(xs, gap);
    ReplaceCharConcat("[" + SingleQuotedItems(xs, gap), ",]", '\'', '"');
    ReplaceCharConcat("[", SingleQuotedItems(xs, gap), '\'', '"');
    assert ReplaceChar(",]", '\'', '"') == ",]";
    assert ReplaceChar("[", '\'', '"') == "[";
  }

  lemma TrailingCommaReplaced(xs: seq<string>, gap: string)
    requires ']' !in gap
    requires forall i | 0 <= i < |xs| :: ']' !in xs[i]
    ensures ReplaceCommaBracket("[" + EncodeItems(xs, gap) + ",]") == "[" + EncodeItems(xs, gap) + "\"]"
  {
    var p := "[" + EncodeItems(xs, gap);
    EncodeItemsFree(xs, gap, ']');
    NoBracketNoMatch(p);
    CommaBracketBecomesQuote(p, "");
    assert ",]" == [','] + "" + "]";
  }

  /** `['a','b',]`: the lenient tier keeps the brackets, on the first URL
      and as a URL of its own */
  lemma TrailingCommaPair(a: string, b: string)
    requires IsBareText(a) && IsBareText(b) && IsPlainText(a) && IsPlainText(b)
    requires ']' !in a && ']' !in b
    ensures ParseImages(Some("['" + a + "','" + b + "',]")) == ["[" + a, b, "]"]
  {
    TrailingCommaPairFallsBack(a, b);
    TrailingCommaPairFallback(a, b);
  }

  lemma TrailingCommaPairFallsBack(a: string, b: string)
    requires IsPlainText(a) && IsPlainText(b) && ']' !in a && ']' !in b
    ensures var raw := "['" + a + "','" + b + "',]";
      ParseImages(Some(raw)) == FallbackImages(raw)
  {
    var raw := "['" + a + "','" + b + "',]";
    assert raw == "[" + SingleQuotedItems([a, b], "") + ",]" by {
      assert [a, b][1..] == [b];
      assert SingleQuotedItems([a, b], "") == "'" + a + "'" + "," + "" + ("'" + b + "'");
    }
    TrailingCommaFallsBack([a, b], "");
  }

  lemma TrailingCommaPairFallback(a: string, b: string)
    requires IsBareText(a) && IsBareText(b)
    ensures FallbackImages("['" + a + "','" + b + "',]") == ["[" + a, b, "]"]
  {
    var pieces := ["['" + a + "'", "'" + b + "'", "]"];
    TrailingCommaSplit(a, b);
    var cleaned := Map(pieces, CleanPiece);
    TrailingCommaPieces(a, b, cleaned);
    KeepThree(cleaned, a, b);
  }

  lemma TrailingCommaSplit(a: string, b: string)
    requires IsBareText(a) && IsBareText(b)
    ensures SplitOn("['" + a + "','" + b + "',]", ',') == ["['" + a + "'", "'" + b + "'", "]"]
  {
    var p0, p1 := "['" + a + "'", "'" + b + "'";
    var pieces := [p0, p1, "]"];
    assert Join(pieces, ',') == "['" + a + "','" + b + "',]" by {
      assert ["]"][1..] == [];
      assert [p1, "]"][1..] == ["]"];
      assert pieces[1..] == [p1, "]"];
      assert Join([p1, "]"], ',') == p1 + [','] + "]";
      assert Join(pieces, ',') == p0 + [','] + (p1 + [','] + "]");
    }
    assert forall i | 0 <= i < 3 :: ',' !in pieces[i];
    SplitJoin(pieces, ',');
  }

  lemma TrailingCommaPieces(a: string, b: string, cleaned: seq<string>)
    requires IsBareText(a) && IsBareText(b)
    requires cleaned == Map(["['" + a + "'", "'" + b + "'", "]"], CleanPiece)
    ensures |cleaned| == 3 && cleaned[0] == "[" + a && cleaned[1] == b && cleaned[2] == "]"
  {
    CleanBracketPiece(a);
    CleanFirstPiece(b);
    CleanClosingPiece();
    CleanThree("['" + a + "'", "'" + b + "'", "]", "[" + a, b, "]");
  }

  lemma CleanBracketPiece(a: string)
    requires IsBareText(a)
    ensures CleanPiece("['" + a + "'") == "[" + a
  {
    var p := "['" + a + "'";
    BracketPieceTrimmed(a);
    BracketPieceUnquoted(a);
    assert '"' !in "[" + a;
    RemoveCharAbsent("[" + a, '"');
  }

  lemma BracketPieceTrimmed(a: string)
    ensures Trim("['" + a + "'") == "['" + a + "'"
  {
    var p := "['" + a + "'";
    TrimExact([], p, []);
    assert [] + p + [] == p;
  }

  lemma BracketPieceUnquoted(a: string)
    requires IsBareText(a)
    ensures RemoveChar("['" + a + "'", '\'') == "[" + a
  {
    var q := '\'';
    assert "['" + a + "'" == "[" + ("'" + (a + "'"));
    QuotedUnquoted(a);
    RemoveCharConcat("[", "'" + (a + "'"), q);
    assert RemoveChar("[", q) == "[";
  }

  /** Dropping the single quotes around a text without any */
  lemma QuotedUnquoted(a: string)
    requires '\'' !in a
    ensures RemoveChar("'" + (a + "'"), '\'') == a
  {
    var q := '\'';
    RemoveCharConcat("'", a + "'", q);
    RemoveCharConcat(a, "'", q);
    RemoveCharAbsent(a, q);
    assert RemoveChar("'", q) == "";
    assert "" + (a + "") == a;
  }

  lemma CleanClosingPiece()
    ensures CleanPiece("]") == "]"
  {
    assert Trim("]") == "]" by {
      TrimExact([], "]", []);
      assert [] + "]" + [] == "]";
    }
  }

  lemma KeepThree(cleaned: seq<string>, a: string, b: string)
    requires IsBareText(b)
    requires |cleaned| == 3 && cleaned[0] == "[" + a && cleaned[1] == b && cleaned[2] == "]"
    ensures Filter(cleaned, KeepPiece) == cleaned
  {
    assert KeepPiece(b) by {
      assert b[0] != '\'' && b[0] != '"';
    }
    assert KeepPiece("[" + a) && KeepPiece("]") by {
      assert ("[" + a)[0] == '[';
    }
    FilterAll(cleaned, KeepPiece);
  }

  // ---------------------------------------------------------------------
  // Examples

  /** A Python-style list gives its URLs */
  lemma PythonListExample()
    ensures ParseImages(Some("['a','b']")) == ["a", "b"]
  {
    SingleQuotedAB();
    CleanAB();
    PythonListRoundTrip(["a", "b"], "");
  }

  lemma SingleQuotedAB()
    ensures SingleQuotedList(["a", "b"], "") == "['a','b']"
  {
  }

  lemma CleanAB()
    ensures forall i | 0 <= i < 2 :: IsCleanUrl(["a", "b"][i]) && IsPlainText(["a", "b"][i])
  {
    OneCharUrl('a');
    OneCharUrl('b');
  }

  /** A one-character URL that is neither space, a quote nor a bracket is clean */
  lemma OneCharUrl(c: char)
    requires !IsSpace(c) && c != '\'' && c != '"' && c != '\\' && c != ']' && c >= ' '
    ensures IsCleanUrl([c]) && IsPlainText([c])
  {
    TrimExact([], [c], []);
    assert [] + [c] + [] == [c];
  }

  /** A bare comma-separated list with a trailing comma gives its URLs */
  lemma BareListExample()
    ensures var a, b := "http://a.png", "http://b.png";
      ParseImages(Some("'" + a + "', '" + b + "',")) == [a, b]
  {
    var a, b := "http://a.png", "http://b.png";
    assert IsBareText(a) && IsBareText(b);
    BareQuotedPair(a, b);
  }

  /** `['a','b',]` gives "[a", "b" and "]" */
  lemma TrailingCommaExample()
    ensures var a, b := "a", "b";
      ParseImages(Some("['" + a + "','" + b + "',]")) == ["[" + a, b, "]"]
  {
    var a, b := "a", "b";
    assert IsBareText(a) && IsBareText(b) && IsPlainText(a) && IsPlainText(b);
    TrailingCommaPair(a, b);
  }
}
