/** The Python notation for a list of strings, `['a', 'b']`, in which the
    catalogue's list cells are written, and how it relates to JSON. */
module PyList {
  import opened JsString
  import opened Json

  /** No quote, backslash or control character: a string the encoder copies as it is */
  predicate IsPlainText(x: string) {
    forall i | 0 <= i < |x| :: x[i] != '\'' && x[i] != '"' && x[i] != '\\' && x[i] >= ' '
  }

  lemma {:induction false} EscapePlain(x: string)
    requires IsPlainText(x)
    ensures Escape(x) == x
  {
    if x != [] {
      EscapePlain(x[1..]);
      assert x == [x[0]] + x[1..];
    }
  }

  /** The strings xs each wrapped in single quotes, joined by a comma and gap:
      with gap " " this is how Python writes a list of strings. */
  function SingleQuotedItems(xs: seq<string>, gap: string): string {
    if xs == [] then ""
    else if |xs| == 1 then "'" + xs[0] + "'"
    else "'" + xs[0] + "'" + "," + gap + SingleQuotedItems(xs[1..], gap)
  }

  function SingleQuotedList(xs: seq<string>, gap: string): string {
    "[" + SingleQuotedItems(xs, gap) + "]"
  }

  /** Turning every single quote into a double quote makes a single-quoted list
      of plain strings a JSON array of them. */
  lemma {:induction false} SingleQuotedIsJson(xs: seq<string>, gap: string)
    requires '\'' !in gap
    requires forall i | 0 <= i < |xs| :: IsPlainText(xs[i])
    ensures ReplaceChar(SingleQuotedList(xs, gap), '\'', '"') == EncodeStrings(xs, gap)
  {
    SingleQuotedItemsAsJson(xs, gap);
    ReplaceCharConcat("[" + SingleQuotedItems(xs, gap), "]", '\'', '"');
    ReplaceCharConcat("[", SingleQuotedItems(xs, gap), '\'', '"');
  }

  lemma {:induction false} SingleQuotedItemsAsJson(xs: seq<string>, gap: string)
    requires '\'' !in gap
    requires forall i | 0 <= i < |xs| :: IsPlainText(xs[i])
    ensures ReplaceChar(SingleQuotedItems(xs, gap), '\'', '"') == EncodeItems(xs, gap)
  {
    if |xs| == 1 {
      SingleQuotedOne(xs[0]);
    } else if |xs| > 1 {
      SingleQuotedItemsAsJson(xs[1..], gap);
      SingleQuotedStep(xs[0], gap, SingleQuotedItems(xs[1..], gap), EncodeItems(xs[1..], gap));
    }
  }

  /** One more item in front: its quotes become double quotes and the rest is converted as before */
  lemma SingleQuotedStep(x: string, gap: string, rest: string, encoded: string)
    requires IsPlainText(x) && '\'' !in gap
    requires ReplaceChar(rest, '\'', '"') == encoded
    ensures ReplaceChar("'" + x + "'" + "," + gap + rest, '\'', '"') == Quote(x) + "," + gap + encoded
  {
    var q := "'" + x + "'";
    SingleQuotedOne(x);
    ReplaceCharConcat(q + "," + gap, rest, '\'', '"');
    ReplaceCharConcat(q + ",", gap, '\'', '"');
    ReplaceCharConcat(q, ",", '\'', '"');
    assert ReplaceChar(",", '\'', '"') == ",";
    ReplaceCharAbsent(gap, '\'', '"');
  }

  lemma SingleQuotedOne(x: string)
    requires IsPlainText(x)
    ensures ReplaceChar("'" + x + "'", '\'', '"') == Quote(x)
  {
    EscapePlain(x);
    ReplaceCharAbsent(x, '\'', '"');
    ReplaceCharConcat("'" + x, "'", '\'', '"');
    ReplaceCharConcat("'", x, '\'', '"');
  }
}
