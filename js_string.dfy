/** The JavaScript String built-ins the product search helpers rely on:
    trim, replace with a one-character global pattern, split on a
    one-character separator, toLowerCase and includes. A JavaScript string
    is modelled as a sequence of characters (see README for surrogates). */
module JsString {

  /** The characters matched by `\s` in a JavaScript regular expression, which
      are also the ones String.prototype.trim removes: the WhiteSpace and
      LineTerminator code points of ECMAScript. */
  predicate IsSpace(c: char) {
    || c == '\t' || c == '\n' || c == '\U{B}' || c == '\U{C}' || c == '\r' || c == ' '
    || c == '\U{A0}' || c == '\U{1680}' || ('\U{2000}' <= c <= '\U{200A}')
    || c == '\U{2028}' || c == '\U{2029}' || c == '\U{202F}' || c == '\U{205F}'
    || c == '\U{3000}' || c == '\U{FEFF}'
  }

  predicate AllSpace(s: string) {
    forall i | 0 <= i < |s| :: IsSpace(s[i])
  }

  /** Length of the longest all-space prefix of s */
  function LeadingSpace(s: string): (k: nat)
    ensures k <= |s| && AllSpace(s[..k])
    ensures k < |s| ==> !IsSpace(s[k])
  {
    if s == [] || !IsSpace(s[0]) then 0
    else
      var k := LeadingSpace(s[1..]);
      assert forall i | 1 <= i < k + 1 :: s[i] == s[1..][..k][i - 1];
      1 + k
  }

  /** Length of the longest all-space suffix of s */
  function TrailingSpace(s: string): (k: nat)
    ensures k <= |s| && AllSpace(s[|s| - k..])
    ensures k < |s| ==> !IsSpace(s[|s| - 1 - k])
  {
    if s == [] || !IsSpace(s[|s| - 1]) then 0
    else
      var u := s[..|s| - 1];
      var k := TrailingSpace(u);
      assert s[|s| - 1 - k..] == u[|u| - k..] + [s[|s| - 1]];
      SpaceSnoc(u[|u| - k..], s[|s| - 1]);
      assert k + 1 < |s| ==> s[|s| - 1 - (k + 1)] == u[|u| - 1 - k];
      1 + k
  }

  lemma SpaceSnoc(a: string, c: char)
    requires AllSpace(a) && IsSpace(c)
    ensures AllSpace(a + [c])
  {
  }

  /** String.prototype.trim: the result has no space at either end, and is
      empty exactly when s is all space. */
  function Trim(s: string): (r: string)
    ensures |r| <= |s|
    ensures r == [] || (!IsSpace(r[0]) && !IsSpace(r[|r| - 1]))
    ensures r == [] <==> AllSpace(s)
    ensures forall c | c in r :: c in s
  {
    var t := s[LeadingSpace(s)..];
    TrimEmptyIffSpace(s);
    t[..|t| - TrailingSpace(t)]
  }

  lemma TrimEmptyIffSpace(s: string)
    ensures var t := s[LeadingSpace(s)..];
      t[..|t| - TrailingSpace(t)] == [] <==> AllSpace(s)
  {
    var lead := LeadingSpace(s);
    var t := s[lead..];
    var k := TrailingSpace(t);
    if lead < |s| {
      NotAllSpaceAt(s, lead);
      assert t[0] == s[lead];
      NotAllSpaceAt(t, 0);
      SuffixShort(t, k);
      assert |t[..|t| - k]| > 0;
    } else {
      assert t == [];
      assert s[..lead] == s;
    }
  }

  lemma NotAllSpaceAt(s: string, j: nat)
    requires j < |s| && !IsSpace(s[j])
    ensures !AllSpace(s)
  {
  }

  /** A space suffix as long as the text is the whole text */
  lemma SuffixShort(t: string, k: nat)
    requires k <= |t| && AllSpace(t[|t| - k..])
    ensures k == |t| ==> AllSpace(t)
  {
    assert k == |t| ==> t[|t| - k..] == t;
  }

  lemma SpaceSuffixAt(t: string, k: nat)
    requires k <= |t| && AllSpace(t[|t| - k..])
    ensures forall i | |t| - k <= i < |t| :: IsSpace(t[i])
  {
    assert forall i | |t| - k <= i < |t| :: t[i] == t[|t| - k..][i - (|t| - k)];
  }

  /** Space before and after a core with non-space ends is exactly what
      trim removes. */
  lemma {:induction false} TrimExact(a: string, t: string, b: string)
    requires AllSpace(a) && AllSpace(b)
    requires t == [] || (!IsSpace(t[0]) && !IsSpace(t[|t| - 1]))
    ensures Trim(a + t + b) == t
  {
    var s := a + t + b;
    if t == [] {
      assert forall i | 0 <= i < |s| :: s[i] == if i < |a| then a[i] else b[i - |a|];
    } else {
      LeadingSpaceAfter(a, t + b);
      assert s == a + (t + b);
      assert LeadingSpace(t + b) == 0;
      var u := s[|a|..];
      assert u == t + b;
      TrailingSpaceBefore(t, b);
      assert TrailingSpace(t) == 0;
    }
  }

  /** A space prefix adds its length to the leading run */
  lemma {:induction false} LeadingSpaceAfter(a: string, u: string)
    requires AllSpace(a)
    ensures LeadingSpace(a + u) == |a| + LeadingSpace(u)
  {
    if a != [] {
      assert (a + u)[1..] == a[1..] + u;
      LeadingSpaceAfter(a[1..], u);
    } else {
      assert a + u == u;
    }
  }

  /** A leading run that stops inside u is not changed by what follows u */
  lemma {:induction false} LeadingSpaceBefore(u: string, v: string)
    requires LeadingSpace(u) < |u|
    ensures LeadingSpace(u + v) == LeadingSpace(u)
  {
    if IsSpace(u[0]) {
      assert (u + v)[1..] == u[1..] + v;
      LeadingSpaceBefore(u[1..], v);
    }
  }

  /** A space suffix adds its length to the trailing run */
  lemma {:induction false} TrailingSpaceBefore(u: string, b: string)
    requires AllSpace(b)
    ensures TrailingSpace(u + b) == |b| + TrailingSpace(u)
  {
    if b != [] {
      assert (u + b)[..|u + b| - 1] == u + b[..|b| - 1];
      TrailingSpaceBefore(u, b[..|b| - 1]);
    } else {
      assert u + b == u;
    }
  }

  /** An all-space suffix from j on lies within the trailing run */
  lemma {:induction false} TrailingSpaceCovers(s: string, j: nat)
    requires j <= |s| && AllSpace(s[j..])
    ensures TrailingSpace(s) >= |s| - j
    decreases |s|
  {
    if j < |s| {
      assert IsSpace(s[j..][|s| - 1 - j]);
      var u := s[..|s| - 1];
      assert forall m | 0 <= m < |u| - j :: u[j..][m] == s[j..][m];
      TrailingSpaceCovers(u, j);
    }
  }

  /** trim is idempotent */
  lemma TrimTwice(s: string)
    ensures Trim(Trim(s)) == Trim(s)
  {
    TrimExact([], Trim(s), []);
    assert [] + Trim(s) + [] == Trim(s);
  }

  /** s.replace(/a/g, b) for single characters a and b */
  function ReplaceChar(s: string, a: char, b: char): (r: string)
    ensures |r| == |s|
    ensures forall i | 0 <= i < |s| :: r[i] == if s[i] == a then b else s[i]
  {
    if s == [] then [] else [if s[0] == a then b else s[0]] + ReplaceChar(s[1..], a, b)
  }

  lemma ReplaceCharConcat(a: string, b: string, x: char, y: char)
    ensures ReplaceChar(a + b, x, y) == ReplaceChar(a, x, y) + ReplaceChar(b, x, y)
  {
  }

  lemma ReplaceCharAbsent(s: string, a: char, b: char)
    requires a !in s
    ensures ReplaceChar(s, a, b) == s
  {
  }

  /** s.replace(/c/g, ''): c is gone and every other character stays, in order */
  function RemoveChar(s: string, c: char): string
  {
    if s == [] then [] else (if s[0] == c then [] else [s[0]]) + RemoveChar(s[1..], c)
  }

  lemma {:induction false} RemoveCharAbsent(s: string, c: char)
    requires c !in s
    ensures RemoveChar(s, c) == s
  {
    if s != [] {
      RemoveCharAbsent(s[1..], c);
      assert s == [s[0]] + s[1..];
    }
  }

  lemma RemoveCharCons(s: string, c: char)
    requires s != []
    ensures RemoveChar(s, c) == (if s[0] == c then [] else [s[0]]) + RemoveChar(s[1..], c)
  {
  }

  /** Removing c keeps exactly the other characters */
  lemma {:induction false} RemoveCharMembers(s: string, c: char)
    ensures forall x | x in RemoveChar(s, c) :: x in s && x != c
    ensures forall i | 0 <= i < |s| && s[i] != c :: s[i] in RemoveChar(s, c)
  {
    if s != [] {
      RemoveCharMembers(s[1..], c);
      assert forall i | 1 <= i < |s| :: s[i] == s[1..][i - 1];
    }
  }

  lemma {:induction false} RemoveCharConcat(a: string, b: string, c: char)
    ensures RemoveChar(a + b, c) == RemoveChar(a, c) + RemoveChar(b, c)
  {
    if a != [] {
      var h := if a[0] == c then [] else [a[0]];
      assert (a + b)[1..] == a[1..] + b;
      assert (a + b)[0] == a[0];
      RemoveCharCons(a + b, c);
      RemoveCharCons(a, c);
      RemoveCharConcat(a[1..], b, c);
      calc {
        RemoveChar(a + b, c);
        h + RemoveChar(a[1..] + b, c);
        h + (RemoveChar(a[1..], c) + RemoveChar(b, c));
        (h + RemoveChar(a[1..], c)) + RemoveChar(b, c);
        RemoveChar(a, c) + RemoveChar(b, c);
      }
    } else {
      assert a + b == b;
    }
  }

  /** Index of the first c in s, or |s| when there is none */
  function IndexOf(s: string, c: char): (k: nat)
    ensures k <= |s| && c !in s[..k]
    ensures k < |s| ==> s[k] == c
  {
    if s == [] || s[0] == c then 0
    else
      var k := IndexOf(s[1..], c);
      assert s[..k + 1] == [s[0]] + s[1..][..k];
      1 + k
  }

  /** s.split(sep) for a one-character separator: never empty, and no piece
      holds the separator. */
  function SplitOn(s: string, sep: char): (r: seq<string>)
    ensures |r| >= 1
    ensures forall i | 0 <= i < |r| :: sep !in r[i]
    decreases |s|
  {
    var k := IndexOf(s, sep);
    if k == |s| then [s] else [s[..k]] + SplitOn(s[k + 1..], sep)
  }

  /** pieces.join(sep) */
  function Join(pieces: seq<string>, sep: char): string
  {
    if |pieces| <= 1 then (if pieces == [] then [] else pieces[0])
    else pieces[0] + [sep] + Join(pieces[1..], sep)
  }

  /** Joining the pieces of a split gives the string back */
  lemma {:induction false} JoinSplit(s: string, sep: char)
    ensures Join(SplitOn(s, sep), sep) == s
    decreases |s|
  {
    var k := IndexOf(s, sep);
    if k < |s| {
      var rest := SplitOn(s[k + 1..], sep);
      JoinSplit(s[k + 1..], sep);
      SplitAtFirst(s, sep);
      JoinCons(s[..k], rest, sep);
      Around(s, k);
    }
  }

  lemma SplitAtFirst(s: string, sep: char)
    requires IndexOf(s, sep) < |s|
    ensures var k := IndexOf(s, sep); SplitOn(s, sep) == [s[..k]] + SplitOn(s[k + 1..], sep)
  {
  }

  lemma Around(s: string, k: nat)
    requires k < |s|
    ensures s == s[..k] + [s[k]] + s[k + 1..]
  {
  }

  lemma JoinCons(p: string, rest: seq<string>, sep: char)
    requires |rest| >= 1
    ensures Join([p] + rest, sep) == p + [sep] + Join(rest, sep)
  {
    assert ([p] + rest)[1..] == rest;
  }

  /** Splitting pieces joined by a separator none of them holds gives the pieces back */
  lemma {:induction false} SplitJoin(pieces: seq<string>, sep: char)
    requires |pieces| >= 1
    requires forall i | 0 <= i < |pieces| :: sep !in pieces[i]
    ensures SplitOn(Join(pieces, sep), sep) == pieces
  {
    var p := pieces[0];
    if |pieces| == 1 {
      assert Join(pieces, sep) == p;
      SplitFree(p, sep);
      assert pieces == [p];
    } else {
      var rest := Join(pieces[1..], sep);
      SplitJoin(pieces[1..], sep);
      assert Join(pieces, sep) == p + [sep] + rest;
      SplitStep(p, rest, sep, pieces[1..]);
      assert pieces == [p] + pieces[1..];
    }
  }

  /** A text without the separator is one piece */
  lemma SplitFree(p: string, sep: char)
    requires sep !in p
    ensures SplitOn(p, sep) == [p]
  {
    assert IndexOf(p, sep) == |p|;
  }

  /** A piece without the separator, then the separator, splits off first */
  lemma SplitStep(p: string, rest: string, sep: char, ps: seq<string>)
    requires sep !in p && SplitOn(rest, sep) == ps
    ensures SplitOn(p + [sep] + rest, sep) == [p] + ps
  {
    var s := p + [sep] + rest;
    SepAfterFreePrefix(p, rest, sep);
    assert s[..|p|] == p && s[|p| + 1..] == rest;
  }

  lemma {:induction false} SepAfterFreePrefix(p: string, rest: string, sep: char)
    requires sep !in p
    ensures IndexOf(p + [sep] + rest, sep) == |p|
  {
    var s := p + [sep] + rest;
    if p != [] {
      assert s[0] == p[0] && s[1..] == p[1..] + [sep] + rest;
      SepAfterFreePrefix(p[1..], rest, sep);
    }
  }

  /** The ASCII part of String.prototype.toLowerCase */
  function LowerChar(c: char): (d: char)
    ensures 'A' <= c <= 'Z' ==> d as int == c as int + 32
    ensures !('A' <= c <= 'Z') ==> d == c
  {
    if 'A' <= c <= 'Z' then (c as int + 32) as char else c
  }

  function ToLower(s: string): (r: string)
    ensures |r| == |s| && forall i | 0 <= i < |s| :: r[i] == LowerChar(s[i])
  {
    if s == [] then [] else [LowerChar(s[0])] + ToLower(s[1..])
  }

  lemma ToLowerConcat(a: string, b: string)
    ensures ToLower(a + b) == ToLower(a) + ToLower(b)
  {
  }

  /** Lower-casing twice changes nothing more */
  lemma ToLowerTwice(s: string)
    ensures ToLower(ToLower(s)) == ToLower(s)
  {
  }

  /** hay.includes(needle) */
  predicate Contains(hay: string, needle: string)
    decreases |hay|
  {
    needle <= hay || (hay != [] && Contains(hay[1..], needle))
  }

  /** needle occurs in hay starting at position i */
  predicate OccursAt(hay: string, needle: string, i: nat) {
    i + |needle| <= |hay| && hay[i..i + |needle|] == needle
  }

  /** includes means the needle occurs at some position of the haystack */
  lemma {:induction false} ContainsAt(hay: string, needle: string)
    ensures Contains(hay, needle) <==> exists i: nat :: OccursAt(hay, needle, i)
    decreases |hay|
  {
    if needle <= hay {
      assert OccursAt(hay, needle, 0);
    } else if hay == [] {
    } else {
      ContainsAt(hay[1..], needle);
      if exists i: nat :: OccursAt(hay, needle, i) {
        var i: nat :| OccursAt(hay, needle, i);
        assert i != 0;
        assert hay[1..][i - 1..i - 1 + |needle|] == hay[i..i + |needle|];
        assert OccursAt(hay[1..], needle, i - 1);
      }
      if Contains(hay[1..], needle) {
        var j: nat :| OccursAt(hay[1..], needle, j);
        assert hay[j + 1..j + 1 + |needle|] == hay[1..][j..j + |needle|];
        assert OccursAt(hay, needle, j + 1);
      }
    }
  }

  /** A needle that starts the second part of a text is included in it */
  lemma ContainsAfter(a: string, b: string, needle: string)
    requires needle <= b
    ensures Contains(a + b, needle)
  {
    var hay := a + b;
    assert hay[|a|..|a| + |needle|] == b[..|needle|];
    ContainsWitness(hay, needle, |a|);
  }

  /** An occurrence at position i is found by includes */
  lemma ContainsWitness(hay: string, needle: string, i: nat)
    requires OccursAt(hay, needle, i)
    ensures Contains(hay, needle)
  {
    ContainsAt(hay, needle);
  }
}
