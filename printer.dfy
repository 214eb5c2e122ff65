/**
 * The printer the generator writes through: an output buffer that only
 * grows, seen as a sequence of lines, and a stack of named scopes. Blank
 * lines and indentation are layout and are not represented.
 */
module Printer {
  import opened GraphQL

  /** `lines` with `s` appended to its last line (or as a first line when there is none). */
  function AppendToLast(lines: seq<string>, s: string): (r: seq<string>)
    ensures |r| == if lines == [] then 1 else |lines|
    ensures lines != [] ==> r[..|lines| - 1] == lines[..|lines| - 1] && r[|lines| - 1] == lines[|lines| - 1] + s
  {
    if lines == [] then [s] else lines[..|lines| - 1] + [lines[|lines| - 1] + s]
  }

  class CodeGenerator {
    const context: Context
    /** Everything printed so far, one entry per line started with `printOnNewline`. */
    var lines: seq<string>
    /** The scope stack; a scope is identified by its type name. */
    var scopes: seq<string>

    constructor (context: Context)
      ensures this.context == context
      ensures lines == [] && scopes == []
    {
      this.context := context;
      lines := [];
      scopes := [];
    }

    /** Starts a new line holding `s`. */
    method PrintOnNewline(s: string)
      modifies this`lines
      ensures lines == old(lines) + [s]
    {
      lines := lines + [s];
    }

    /** Continues the current line with `s`. */
    method Print(s: string)
      modifies this`lines
      ensures lines == AppendToLast(old(lines), s)
    {
      lines := AppendToLast(lines, s);
    }

    method PushScope(typeName: string)
      modifies this`scopes
      ensures scopes == old(scopes) + [typeName]
    {
      scopes := scopes + [typeName];
    }

    /** Pops the innermost scope; popping an empty stack changes nothing and yields `None`. */
    method PopScope() returns (top: Option<string>)
      modifies this`scopes
      ensures old(scopes) == [] ==> top == None && scopes == []
      ensures old(scopes) != [] ==>
                top == Some(old(scopes)[|old(scopes)| - 1]) && scopes == old(scopes)[..|old(scopes)| - 1]
    {
      if scopes == [] {
        top := None;
      } else {
        top := Some(scopes[|scopes| - 1]);
        scopes := scopes[..|scopes| - 1];
      }
    }
  }
}
