/**
 * `extractGraphQLDocumentsFromJuliaStrings` (src/codegen.ts): the GraphQL
 * documents embedded in a Julia source file as `gql"""…"""` string
 * macros. A document is represented by its source text; parsing it is
 * left to GraphQL's own parser.
 */
module Extract {
  import opened GraphQL
  import opened JsStrings

  /** The text that opens an embedded document. */
  const Opener: string := "gql\"\"\""

  /** The text that closes one. */
  const Closer: string := "\"\"\""

  /** Where the next document's opener starts, or -1. */
  function Start(text: string): int {
    Search(text, Opener)
  }

  /** Where the closer starts, counted from the end of the opener at `start`, or -1. */
  function End(text: string, start: int): int {
    Search(SubstringFrom(text, start + |Opener|), Closer)
  }

  /**
   * The next document: everything after the opener up to the closer. An
   * opener with no closer after it yields the one-character text `"`,
   * because the arguments of `substring` are then swapped.
   */
  function Body(text: string): string
    requires Start(text) != -1
  {
    var start := Start(text);
    Substring(text, start + |Opener|, End(text, start) + start + |Opener|)
  }

  /**
   * Where the scan goes on: from the closer, or from the last character of
   * an unclosed opener. Either way the scan has moved past all of the
   * opener but its last quote, so at least five characters are gone.
   */
  function Rest(text: string): (r: string)
    requires Start(text) != -1
    ensures |r| <= |text| - Start(text) - (|Opener| - 1)
    ensures |r| <= |text| - 5
  {
    var start := Start(text);
    assert MatchAt(text, Opener, start);
    var end := End(text, start);
    assert end == -1 || MatchAt(text[start + |Opener|..], Closer, end);
    SubstringFrom(text, end + start + |Opener|)
  }

  /**
   * The documents one run of the extraction loop collects from `text`:
   * find the first opener, take the document after it, continue with the
   * rest. Nothing is collected exactly when the text holds no opener.
   */
  function Documents(text: string): (r: seq<string>)
    ensures r == [] <==> !Occurs(text, Opener)
    decreases |text|
  {
    if Start(text) == -1 then [] else [Body(text)] + Documents(Rest(text))
  }

  /** The document taken from what follows an opener: up to the first closer, or `"` when there is none. */
  function Document(tail: string): string {
    var end := Search(tail, Closer);
    if end == -1 then "\"" else tail[..end]
  }

  /** Where the scan goes on, given what follows an opener: from the first closer, or from the opener's last quote. */
  function After(tail: string): string {
    var end := Search(tail, Closer);
    if end == -1 then "\"" + tail else tail[end..]
  }

  /** The document and the rest depend only on what follows the first opener. */
  lemma BodyAndRest(text: string)
    requires Start(text) != -1
    ensures Body(text) == Document(text[Start(text) + |Opener|..])
    ensures Rest(text) == After(text[Start(text) + |Opener|..])
  {
    var start := Start(text);
    var tail := text[start + |Opener|..];
    assert MatchAt(text, Opener, start);
    var end := Search(tail, Closer);
    if end != -1 {
      assert MatchAt(tail, Closer, end);
      assert Body(text) == Document(tail) by {
        assert text[start + |Opener|..end + start + |Opener|] == tail[..end];
      }
      assert Rest(text) == After(tail) by {
        assert text[end + start + |Opener|..] == tail[end..];
      }
    } else {
      assert Rest(text) == After(tail) by {
        assert text[start..start + |Opener|][|Opener| - 1] == '"';
        assert text[start + |Opener| - 1..] == "\"" + tail;
      }
      assert Body(text) == Document(tail) by {
        assert text[start + |Opener| - 1..start + |Opener|] == [text[start + |Opener| - 1]];
        assert text[start..start + |Opener|][|Opener| - 1] == '"';
      }
    }
  }

  /** The loop's own computation of the next document and of where to go on agrees with `Documents`. */
  lemma DocumentsStep(rest: string, start: int, end: int)
    requires start == Start(rest) != -1
    requires end == Search(SubstringFrom(rest, start + |Opener|), Closer)
    ensures Documents(rest) == [Substring(rest, start + |Opener|, end + start + |Opener|)]
                               + Documents(SubstringFrom(rest, end + start + |Opener|))
  {
    assert Substring(rest, start + |Opener|, end + start + |Opener|) == Body(rest);
    assert SubstringFrom(rest, end + start + |Opener|) == Rest(rest);
  }

  /**
   * One turn of the extraction loop keeps its invariant: the documents
   * collected so far followed by those still in `rest` are those of `text`.
   */
  lemma ScanStep(documents: seq<string>, text: string, rest: string, start: int, end: int)
    requires documents + Documents(rest) == Documents(text)
    requires start == Start(rest) != -1
    requires end == Search(SubstringFrom(rest, start + |Opener|), Closer)
    ensures (documents + [Substring(rest, start + |Opener|, end + start + |Opener|)])
            + Documents(SubstringFrom(rest, end + start + |Opener|)) == Documents(text)
  {
    var document, next := Substring(rest, start + |Opener|, end + start + |Opener|), SubstringFrom(rest, end + start + |Opener|);
    DocumentsStep(rest, start, end);
    AppendAssoc(documents, [document], Documents(next));
  }

  /**
   * `extractGraphQLDocumentsFromJuliaStrings(text)`: the documents found,
   * in order of appearance, or `None` (the source's `null`) when there is
   * none.
   */
  method ExtractGraphQLDocumentsFromJuliaStrings(text: string) returns (r: Option<seq<string>>)
    ensures Documents(text) == [] ==> r == None
    ensures Documents(text) != [] ==> r == Some(Documents(text))
  {
    var documents: seq<string> := [];
    var rest := text;
    var start := Search(rest, Opener);
    while start != -1
      invariant start == Start(rest)
      invariant documents + Documents(rest) == Documents(text)
      decreases |rest|
    {
      var end := Search(SubstringFrom(rest, start + |Opener|), Closer);
      var document := Substring(rest, start + |Opener|, end + start + |Opener|);
      var next := SubstringFrom(rest, end + start + |Opener|);
      ScanStep(documents, text, rest, start, end);
      documents := documents + [document];
      rest := next;
      start := Search(rest, Opener);
    }
    assert documents == Documents(text) by {
      assert Documents(rest) == [];
      assert documents + [] == documents;
    }
    if |documents| < 1 {
      return None;
    }
    return Some(documents);
  }

  /** The opener cannot overlap itself: after text free of openers, an opener is the first one. */
  lemma FirstOpener(pre: string, s: string)
    requires !Occurs(pre, Opener)
    ensures Start(pre + Opener + s) == |pre|
  {
    var text := pre + Opener + s;
    assert text[|pre|..|pre| + |Opener|] == Opener;
    forall i | 0 <= i < |pre|
      ensures !MatchAt(text, Opener, i)
    {
      if i + |Opener| <= |pre| {
        assert pre[i..i + |Opener|] == text[i..i + |Opener|];
        assert !MatchAt(pre, Opener, i);
      } else {
        assert text[|pre|] == 'g';
        assert Opener[|pre| - i] != 'g';
      }
    }
    SearchIsFirst(text, Opener, |pre|);
  }

  /**
   * After a body free of the closer that does not end in a quote, the
   * closer that follows is the first one.
   */
  lemma FirstCloser(body: string, s: string)
    requires !Occurs(body + "\"\"", Closer)
    ensures Search(body + Closer + s, Closer) == |body|
  {
    var text := body + Closer + s;
    assert text[|body|..|body| + |Closer|] == Closer;
    forall i | 0 <= i < |body|
      ensures !MatchAt(text, Closer, i)
    {
      assert (body + "\"\"")[i..i + |Closer|] == text[i..i + |Closer|];
      assert !MatchAt(body + "\"\"", Closer, i);
    }
    SearchIsFirst(text, Closer, |body|);
  }

  /** The opener is found in `q + s` where it is found in `s`, shifted, when `q` is quotes only. */
  lemma StartAfterQuotes(q: string, s: string)
    requires forall k :: 0 <= k < |q| ==> q[k] == '"'
    ensures Start(s) == -1 ==> Start(q + s) == -1
    ensures Start(s) != -1 ==> Start(q + s) == Start(s) + |q|
  {
    var text := q + s;
    var start := Start(s);
    forall i | 0 <= i <= |text| - |Opener|
      ensures MatchAt(text, Opener, i) ==> i >= |q| && MatchAt(s, Opener, i - |q|)
    {
      if i < |q| {
        assert text[i..i + |Opener|][0] == '"';
      } else {
        assert text[i..i + |Opener|] == s[i - |q|..i - |q| + |Opener|];
      }
    }
    if start != -1 {
      assert text[start + |q|..start + |q| + |Opener|] == s[start..start + |Opener|];
      SearchIsFirst(text, Opener, start + |q|);
    }
  }

  /** The closing quotes the scan resumes from cannot start a new document. */
  lemma ClosingQuotesSkipped(s: string)
    ensures Documents(Closer + s) == Documents(s)
  {
    var text := Closer + s;
    StartAfterQuotes(Closer, s);
    if Start(s) != -1 {
      assert Body(text) == Body(s) && Rest(text) == Rest(s) by {
        assert text[Start(text) + |Opener|..] == s[Start(s) + |Opener|..];
        BodyAndRest(text);
        BodyAndRest(s);
      }
    }
  }

  /**
   * A complete block is extracted as exactly its body, and the scan goes
   * on with what follows the block.
   */
  lemma OneBlock(pre: string, body: string, post: string)
    requires !Occurs(pre, Opener)
    requires !Occurs(body + "\"\"", Closer)
    ensures Documents(pre + Opener + body + Closer + post) == [body] + Documents(post)
  {
    var text := pre + Opener + body + Closer + post;
    assert Start(text) == |pre| && Body(text) == body && Rest(text) == Closer + post by {
      var tail := body + Closer + post;
      assert text == pre + Opener + tail;
      FirstOpener(pre, tail);
      assert text[|pre| + |Opener|..] == tail;
      BodyAndRest(text);
      FirstCloser(body, post);
      assert tail[..|body|] == body;
      assert tail[|body|..] == Closer + post;
    }
    ClosingQuotesSkipped(post);
  }

  /** Every opener ends with a closer, so text free of closers is free of openers. */
  lemma NoCloserNoOpener(s: string)
    requires !Occurs(s, Closer)
    ensures Start(s) == -1
  {
    forall i | 0 <= i <= |s| - |Opener|
      ensures !MatchAt(s, Opener, i)
    {
      assert s[i + 3..i + |Opener|] == s[i..i + |Opener|][3..];
      assert Opener[3..] == Closer;
      assert !MatchAt(s, Closer, i + 3);
    }
  }

  /**
   * An opener that is never closed yields the one-character document `"`
   * and ends the scan.
   */
  lemma UnterminatedBlock(pre: string, s: string)
    requires !Occurs(pre, Opener)
    requires !Occurs(s, Closer)
    ensures Documents(pre + Opener + s) == ["\""]
  {
    var text := pre + Opener + s;
    assert Start(text) == |pre| && Body(text) == "\"" && Rest(text) == "\"" + s by {
      FirstOpener(pre, s);
      assert text[|pre| + |Opener|..] == s;
      BodyAndRest(text);
    }
    assert Documents("\"" + s) == [] by {
      NoCloserNoOpener(s);
      StartAfterQuotes("\"", s);
    }
  }

  /** A Julia text made of gaps free of openers and complete blocks around the given bodies. */
  function Render(gaps: seq<string>, bodies: seq<string>): string
    requires |gaps| == |bodies|
  {
    if bodies == [] then ""
    else Render(gaps[..|gaps| - 1], bodies[..|bodies| - 1]) + gaps[|gaps| - 1] + Opener + bodies[|bodies| - 1] + Closer
  }

  /** The last block of a rendered text, with what follows it. */
  lemma RenderLast(gaps: seq<string>, bodies: seq<string>, tail: string)
    requires |gaps| == |bodies| > 0
    ensures var n := |bodies| - 1;
            Render(gaps, bodies) + tail
            == Render(gaps[..n], bodies[..n]) + (gaps[n] + Opener + bodies[n] + Closer + tail)
  {
    var n := |bodies| - 1;
    var block := gaps[n] + Opener + bodies[n] + Closer;
    assert Render(gaps, bodies) == Render(gaps[..n], bodies[..n]) + block;
    assert block + tail == gaps[n] + Opener + bodies[n] + Closer + tail;
  }

  /**
   * Every body of a text made of complete blocks is extracted, in order,
   * provided no gap holds an opener and no body holds a closer or ends
   * in a quote.
   */
  lemma {:induction false} ExtractRoundTrip(gaps: seq<string>, bodies: seq<string>, tail: string)
    requires |gaps| == |bodies|
    requires forall k :: 0 <= k < |gaps| ==> !Occurs(gaps[k], Opener)
    requires forall k :: 0 <= k < |bodies| ==> !Occurs(bodies[k] + "\"\"", Closer)
    ensures Documents(Render(gaps, bodies) + tail) == bodies + Documents(tail)
    decreases |bodies|
  {
    if bodies == [] {
      assert Render(gaps, bodies) + tail == tail;
      assert bodies + Documents(tail) == Documents(tail);
    } else {
      var n := |bodies| - 1;
      var gaps', bodies' := gaps[..n], bodies[..n];
      var rest := gaps[n] + Opener + bodies[n] + Closer + tail;
      assert bodies == bodies' + [bodies[n]];
      RenderLast(gaps, bodies, tail);
      var after := Documents(tail);
      assert Documents(rest) == [bodies[n]] + after by {
        OneBlock(gaps[n], bodies[n], tail);
      }
      assert Documents(Render(gaps', bodies') + rest) == bodies' + ([bodies[n]] + after) by {
        ExtractRoundTrip(gaps', bodies', rest);
      }
      AppendAssoc(bodies', [bodies[n]], after);
    }
  }
}
