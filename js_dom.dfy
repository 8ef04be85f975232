/**
 * The part of a parsed JavaScript unit that the builder looks at: its
 * top-level statements, each function with its name, its documentation
 * comment (both as raw buffer text and as parsed tags) and an opaque body;
 * and the workspace resources that hold such units.
 */
module JsDom {
  import opened Wrappers
  import opened JavaStrings

  /** A JSdoc tag element: its name, '@' included, and its text fragments. */
  datatype Tag = Tag(name: string, fragments: seq<string>)

  /**
   * A documentation comment. `text` is the raw buffer text of the comment,
   * `tags` the parser's tag elements, and `end` the comment's offset plus
   * length, which the builder uses as the line of its markers.
   */
  datatype Doc = Doc(text: string, tags: seq<Tag>, end: int)

  /** A top-level statement of a unit: a function declaration, or anything else. */
  datatype Statement =
    | Function(name: string, doc: Option<Doc>, body: string)
    | OtherStatement(source: string)

  /** A workspace member: a file with its parsed statements, or a container. */
  datatype Resource = File(statements: seq<Statement>) | Folder

  predicate IsFunctionNamed(s: Statement, name: string)
  {
    s.Function? && s.name == name
  }

  /** The statements hold a function declaration named `name`. */
  predicate HasFunction(stmts: seq<Statement>, name: string)
  {
    exists k :: 0 <= k < |stmts| && IsFunctionNamed(stmts[k], name)
  }

  /**
   * findFunction: the position of the first function declaration whose
   * name equals `name` exactly; statements of other kinds are skipped.
   */
  function FindFunction(stmts: seq<Statement>, name: string): (r: Option<nat>)
    ensures r.Some? ==> r.value < |stmts| && IsFunctionNamed(stmts[r.value], name)
    ensures r.Some? ==> forall k :: 0 <= k < r.value ==> !IsFunctionNamed(stmts[k], name)
    ensures r.None? <==> !HasFunction(stmts, name)
  {
    if stmts == [] then None
    else if IsFunctionNamed(stmts[0], name) then Some(0)
    else
      match FindFunction(stmts[1..], name)
      case None =>
        assert forall k :: 1 <= k < |stmts| ==> stmts[k] == stmts[1..][k - 1];
        None
      case Some(i) => Some(i + 1)
  }

  /** The statements with the first function named `name` taken out, if there is one. */
  function RemoveFunction(stmts: seq<Statement>, name: string): (r: seq<Statement>)
    ensures FindFunction(stmts, name).None? ==> r == stmts
    ensures FindFunction(stmts, name).Some? ==>
      var i := FindFunction(stmts, name).value; |r| == |stmts| - 1 && r == stmts[..i] + stmts[i + 1..]
  {
    match FindFunction(stmts, name)
    case None => stmts
    case Some(i) => stmts[..i] + stmts[i + 1..]
  }

  /** At most one function declaration is named `name`. */
  predicate AtMostOneNamed(stmts: seq<Statement>, name: string)
  {
    forall i, j :: 0 <= i < j < |stmts| && IsFunctionNamed(stmts[i], name) ==> !IsFunctionNamed(stmts[j], name)
  }

  /**
   * JavaScriptCore.isJavaScriptLikeFileName, for the default content type:
   * the name ends in ".js".
   */
  predicate IsJavaScriptLikeName(path: string)
  {
    |path| >= 3 && path[|path| - 3..] == ".js"
  }
}
