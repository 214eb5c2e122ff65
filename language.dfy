/**
 * Printing helpers for Julia source (src/language.ts): escaping of
 * reserved identifiers, `#` comment lines, and the `@NamedTuple`
 * declaration wrapper with its scope.
 */
module Language {
  import opened GraphQL
  import opened JsStrings
  import opened Printer

  /** Julia words that cannot be used as bare identifiers. */
  const ReservedKeywords: set<string> := {"function"}

  /**
   * A reserved word is wrapped in backticks; every other identifier is
   * returned unchanged. The result is never itself a reserved word.
   */
  function EscapeIdentifierIfNeeded(identifier: string): (r: string)
    ensures identifier in ReservedKeywords ==> r == "`" + identifier + "`"
    ensures identifier !in ReservedKeywords ==> r == identifier
    ensures r !in ReservedKeywords
  {
    if identifier in ReservedKeywords then "`" + identifier + "`" else identifier
  }

  /** Escaping an escaped identifier changes nothing. */
  lemma EscapeIdempotent(identifier: string)
    ensures EscapeIdentifierIfNeeded(EscapeIdentifierIfNeeded(identifier)) == EscapeIdentifierIfNeeded(identifier)
  {
  }

  /** A GraphQL name: letters, digits and underscores, not starting with a digit. */
  predicate IsGraphQLName(s: string) {
    |s| > 0 && !('0' <= s[0] <= '9') &&
    forall i :: 0 <= i < |s| ==> ('a' <= s[i] <= 'z' || 'A' <= s[i] <= 'Z' || '0' <= s[i] <= '9' || s[i] == '_')
  }

  /** Distinct GraphQL names stay distinct once escaped. */
  lemma EscapeInjectiveOnNames(a: string, b: string)
    requires IsGraphQLName(a) && IsGraphQLName(b) && a != b
    ensures EscapeIdentifierIfNeeded(a) != EscapeIdentifierIfNeeded(b)
  {
    if a in ReservedKeywords {
      assert EscapeIdentifierIfNeeded(a)[0] == '`' != b[0];
    } else if b in ReservedKeywords {
      assert EscapeIdentifierIfNeeded(b)[0] == '`' != a[0];
    }
  }

  /** The comment lines for the given segments: `# ` and the trimmed segment, in order. */
  function CommentedLines(segments: seq<string>): (r: seq<string>)
    ensures |r| == |segments|
    ensures forall i :: 0 <= i < |segments| ==> r[i] == "# " + Trim(segments[i])
  {
    if segments == [] then []
    else CommentedLines(segments[..|segments| - 1]) + ["# " + Trim(segments[|segments| - 1])]
  }

  /** One more segment adds its comment line. */
  lemma CommentedLinesSnoc(segments: seq<string>, i: nat)
    requires i < |segments|
    ensures CommentedLines(segments[..i + 1]) == CommentedLines(segments[..i]) + ["# " + Trim(segments[i])]
  {
    assert segments[..i + 1][..i] == segments[..i];
  }

  /** The lines `comment` prints: none for an empty comment, else one per newline-separated segment. */
  function CommentLines(comment: string): seq<string> {
    if comment == "" then [] else CommentedLines(Split(comment, '\n'))
  }

  /**
   * An empty comment prints nothing; any other prints one more line than
   * it has newlines, each `# ` and a segment trimmed, none of them
   * spanning a line break.
   */
  lemma CommentLinesShape(comment: string)
    ensures comment == "" ==> CommentLines(comment) == []
    ensures comment != "" ==> |CommentLines(comment)| == CountChar(comment, '\n') + 1
    ensures forall i :: 0 <= i < |CommentLines(comment)| ==>
              CommentLines(comment)[i] == "# " + Trim(Split(comment, '\n')[i]) &&
              '\n' !in CommentLines(comment)[i]
  {
    if comment != "" {
      var segments := Split(comment, '\n');
      forall i | 0 <= i < |segments|
        ensures '\n' !in CommentLines(comment)[i]
      {
        OccursChars(segments[i], Trim(segments[i]));
        assert CommentLines(comment)[i] == "# " + Trim(segments[i]);
      }
    }
  }

  /** `comment(generator, comment)`: prints the comment's lines. */
  method Comment(g: CodeGenerator, comment: string)
    modifies g`lines
    ensures g.lines == old(g.lines) + CommentLines(comment)
  {
    var split := if comment != "" then Split(comment, '\n') else [];
    if |split| > 0 {
      var i := 0;
      while i < |split|
        invariant 0 <= i <= |split|
        invariant g.lines == old(g.lines) + CommentedLines(split[..i])
      {
        var line := "# " + Trim(split[i]);
        CommentedLinesSnoc(split, i);
        g.PrintOnNewline(line);
        AppendAssoc(old(g.lines), CommentedLines(split[..i]), [line]);
        i := i + 1;
      }
      assert split[..i] == split;
    }
  }

  /** The header line of a named-tuple declaration. */
  function NamedTupleHeader(objectName: string): string {
    "const " + objectName + " = @NamedTuple "
  }

  /**
   * What `namedTupleDeclaration` prints: the header, and only when a
   * closure is supplied, " begin" on the same line, the closure's lines
   * and the closing "end".
   */
  function NamedTupleLines(objectName: string, closure: Option<seq<string>>): seq<string> {
    match closure
    case None => [NamedTupleHeader(objectName)]
    case Some(body) => [NamedTupleHeader(objectName) + " begin"] + body + ["end\n\n"]
  }

  /**
   * `namedTupleDeclaration(generator, {objectName}, closure)`. The closure
   * is represented by the lines it prints. One scope named after the
   * object is pushed before the block and popped after it, so the scope
   * stack is as it was.
   */
  method NamedTupleDeclaration(g: CodeGenerator, objectName: string, closure: Option<seq<string>>)
    modifies g`lines, g`scopes
    ensures g.scopes == old(g.scopes)
    ensures g.lines == old(g.lines) + NamedTupleLines(objectName, closure)
  {
    g.PrintOnNewline(NamedTupleHeader(objectName));
    g.PushScope(objectName);
    if closure.Some? {
      g.Print(" begin");
      var body := closure.value;
      var i := 0;
      while i < |body|
        invariant 0 <= i <= |body|
        invariant g.scopes == old(g.scopes) + [objectName]
        invariant g.lines == old(g.lines) + [NamedTupleHeader(objectName) + " begin"] + body[..i]
      {
        g.PrintOnNewline(body[i]);
        assert body[..i + 1] == body[..i] + [body[i]];
        i := i + 1;
      }
      assert body[..i] == body;
      g.PrintOnNewline("end\n\n");
    }
    var _ := g.PopScope();
  }
}
