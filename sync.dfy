/**
 * What JavaScriptBuilder does to the workspace, as functions over a
 * workspace value: `process` (copy every `@copyTo` function into its
 * destinations and check every `@generatedFrom` link),
 * `processRemovedResource` (the removal cascade), the delta visitor and
 * `build`. The class in module Builder runs the same steps imperatively and
 * is proved to end in the states these functions give.
 */
module Sync {
  import opened Wrappers
  import opened JavaStrings
  import opened JsDom
  import opened Annotations
  import BuilderStatus

  /** IMarker.SEVERITY_ERROR. */
  const SeverityError: int := 2

  /** What a failed `process` throws in this model: see ProcessDeclaration. */
  const NullPointer: string := "java.lang.NullPointerException"

  /** The messages of the markers a broken `@generatedFrom` link gives, before the link's value. */
  const CannotFindResource: string := "Cannot find resource "
  const CannotFindFunction: string := "Cannot find source function "

  /** The message of the status a failed build reports. */
  const FailedToBuild: string := "Failed to build."

  /** A problem marker of the builder's marker type: file, message, line and severity. */
  datatype Marker = Marker(file: string, message: string, line: int, severity: int)

  /**
   * The state the builder reads and changes: every resource by full path
   * (files as the statements of their current buffer), the builder's
   * markers in creation order, and the files whose buffer was set without
   * being saved.
   */
  datatype Workspace = Workspace(files: map<string, Resource>, markers: seq<Marker>, unsaved: set<string>)

  predicate IsFileAt(ws: Workspace, path: string)
  {
    path in ws.files && ws.files[path].File?
  }

  /** The same resources, each still a file or still a container. */
  predicate SameShape(ws: Workspace, r: Workspace)
  {
    && r.files.Keys == ws.files.Keys
    && forall p :: p in ws.files ==> (r.files[p].File? <==> ws.files[p].File?)
  }

  /** `r` keeps the markers of `ws` in order and adds only error markers on `file`. */
  predicate MarkersExtend(ws: seq<Marker>, r: seq<Marker>, file: string)
  {
    && |ws| <= |r| && r[..|ws|] == ws
    && forall k :: |ws| <= k < |r| ==> r[k].file == file && r[k].severity == SeverityError
  }

  // ----------------------------------------------------------------------
  // Markers

  /** addMarker: appends one marker; a line of -1 is recorded as line 1. */
  function AddMarker(markers: seq<Marker>, file: string, message: string, line: int, severity: int): (r: seq<Marker>)
    ensures |r| == |markers| + 1 && r[..|markers|] == markers
    ensures r[|markers|].file == file && r[|markers|].message == message && r[|markers|].severity == severity
    ensures r[|markers|].line == (if line == -1 then 1 else line)
  {
    markers + [Marker(file, message, if line == -1 then 1 else line, severity)]
  }

  /** deleteMarkers: drops every marker of `file` and keeps the others in order. */
  function DeleteMarkers(markers: seq<Marker>, file: string): (r: seq<Marker>)
    ensures forall m :: m in r <==> m in markers && m.file != file
    ensures |r| <= |markers|
  {
    if markers == [] then []
    else if markers[0].file == file then DeleteMarkers(markers[1..], file)
    else [markers[0]] + DeleteMarkers(markers[1..], file)
  }

  // ----------------------------------------------------------------------
  // Copying one function

  /**
   * The copy of `decl` that goes into a destination: same name and body,
   * its tags rewritten by replaceCopyTo, and its comment text the rendering
   * of those tags.
   */
  function CopyOf(decl: Statement, source: string): (r: Statement)
    requires decl.Function? && decl.doc.Some?
    ensures r.Function? && r.name == decl.name && r.body == decl.body && r.doc.Some?
    ensures r.doc.value.tags == RewriteTags(decl.doc.value.tags, source)
  {
    var tags := RewriteTags(decl.doc.value.tags, source);
    Function(decl.name, Some(Doc(RenderDoc(tags), tags, decl.doc.value.end)), decl.body)
  }

  /**
   * The copy step for one destination: the first function of the same name
   * is removed, every other statement keeps its relative order, and the
   * copy is appended as the last statement.
   */
  function CopyInto(dest: seq<Statement>, decl: Statement, source: string): (r: seq<Statement>)
    requires decl.Function? && decl.doc.Some?
    ensures |r| >= 1 && r[|r| - 1] == CopyOf(decl, source)
    ensures HasFunction(dest, decl.name) ==> |r| == |dest|
    ensures !HasFunction(dest, decl.name) ==> r == dest + [CopyOf(decl, source)]
    ensures FindFunction(dest, decl.name).Some? ==>
      var i := FindFunction(dest, decl.name).value; r[..i] == dest[..i] && r[i..|r| - 1] == dest[i + 1..]
  {
    RemoveFunction(dest, decl.name) + [CopyOf(decl, source)]
  }

  /** After a copy the destination holds exactly one function of that name, provided it held at most one. */
  lemma CopyLeavesOne(dest: seq<Statement>, decl: Statement, source: string)
    requires decl.Function? && decl.doc.Some?
    requires AtMostOneNamed(dest, decl.name)
    ensures var r := CopyInto(dest, decl, source);
      AtMostOneNamed(r, decl.name) && FindFunction(r, decl.name) == Some(|r| - 1)
  {
    var r := CopyInto(dest, decl, source);
    forall k | 0 <= k < |r| - 1 ensures !IsFunctionNamed(r[k], decl.name) {
      OnlyCopyNamed(dest, decl, source, k);
    }
    var j := FindFunction(r, decl.name).value;
    assert IsFunctionNamed(r[j], decl.name);
  }

  /** Before the copy at the end, no statement of the destination has the copied name. */
  lemma OnlyCopyNamed(dest: seq<Statement>, decl: Statement, source: string, k: nat)
    requires decl.Function? && decl.doc.Some? && AtMostOneNamed(dest, decl.name)
    requires k < |CopyInto(dest, decl, source)| - 1
    ensures !IsFunctionNamed(CopyInto(dest, decl, source)[k], decl.name)
  {
    var r := CopyInto(dest, decl, source);
    match FindFunction(dest, decl.name)
    case None =>
      assert r == dest + [CopyOf(decl, source)];
      assert r[k] == dest[k];
    case Some(i) =>
      if k >= i {
        assert r[i..|r| - 1] == dest[i + 1..];
        assert r[k] == dest[i + 1..][k - i] == dest[k + 1];
      } else {
        assert r[..i] == dest[..i];
        assert r[k] == dest[..i][k] == dest[k];
      }
  }

  /** Copying the same function again with nothing changed in between leaves the destination as it is. */
  lemma CopyIdempotent(dest: seq<Statement>, decl: Statement, source: string)
    requires decl.Function? && decl.doc.Some?
    requires AtMostOneNamed(dest, decl.name)
    ensures CopyInto(CopyInto(dest, decl, source), decl, source) == CopyInto(dest, decl, source)
  {
    var r := CopyInto(dest, decl, source);
    CopyLeavesOne(dest, decl, source);
    assert RemoveFunction(r, decl.name) == r[..|r| - 1];
  }

  /** The copy's comment records its source, for both readers of it. */
  lemma CopyRecordsSource(decl: Statement, source: string, k: nat)
    requires decl.Function? && decl.doc.Some?
    requires k < |decl.doc.value.tags| && decl.doc.value.tags[k].name == CopyToTag
    requires forall j :: 0 <= j < k ==> !IsSourceTag(decl.doc.value.tags[j])
    ensures IsGenerated(CopyOf(decl, source).doc.value.text, source)
    ensures GetGeneratedFrom(CopyOf(decl, source).doc.value.tags) == Some(source)
  {
    var tags := RewriteTags(decl.doc.value.tags, source);
    RenderedSourceIsGenerated(tags, k, source);
    RewriteRecordsSource(decl.doc.value.tags, source, k);
  }

  // ----------------------------------------------------------------------
  // process: one resource

  /** Where a `@copyTo` fragment points: the fragment, trimmed, under the project's path. */
  function DestinationPath(project: string, fragment: string): (r: string)
    ensures |r| == |project| + 1 + |Trim(fragment)| && r[..|project|] == project && r[|project|] == '/'
    ensures r[|project| + 1..] == Trim(fragment)
  {
    project + "/" + Trim(fragment)
  }

  /** Two fragments name the same destination exactly when they agree once trimmed. */
  lemma SameDestination(project: string, f: string, g: string)
    ensures DestinationPath(project, f) == DestinationPath(project, g) <==> Trim(f) == Trim(g)
  {
    if DestinationPath(project, f) == DestinationPath(project, g) {
      var n := |project| + 1;
      assert Trim(f) == DestinationPath(project, f)[n..] == DestinationPath(project, g)[n..] == Trim(g);
    }
  }

  /** The copy into one destination, skipped without a marker when the destination is not a file. */
  function CopyToDestination(ws: Workspace, project: string, source: string, decl: Statement, fragment: string): (r: Workspace)
    requires decl.Function? && decl.doc.Some?
    ensures r.markers == ws.markers && SameShape(ws, r)
    ensures !IsFileAt(ws, DestinationPath(project, fragment)) ==> r == ws
    ensures var dest := DestinationPath(project, fragment);
      IsFileAt(ws, dest) ==>
        && r.files == ws.files[dest := File(CopyInto(ws.files[dest].statements, decl, source))]
        && r.unsaved == ws.unsaved - {dest}
  {
    var dest := DestinationPath(project, fragment);
    if IsFileAt(ws, dest) then
      ws.(files := ws.files[dest := File(CopyInto(ws.files[dest].statements, decl, source))],
          unsaved := ws.unsaved - {dest})
    else
      ws
  }

  /** The copies into the destinations `fragments[j..]`, one after the other. */
  function CopyToAll(ws: Workspace, project: string, source: string, decl: Statement, fragments: seq<string>, j: nat): (r: Workspace)
    requires decl.Function? && decl.doc.Some?
    ensures r.markers == ws.markers && SameShape(ws, r) && r.unsaved <= ws.unsaved
    decreases |fragments| - j
  {
    if j >= |fragments| then ws
    else CopyToAll(CopyToDestination(ws, project, source, decl, fragments[j]), project, source, decl, fragments, j + 1)
  }

  /** The file at `dest` ends with the statement `last`. */
  predicate EndsWith(ws: Workspace, dest: string, last: Statement)
  {
    IsFileAt(ws, dest) && |ws.files[dest].statements| >= 1
    && ws.files[dest].statements[|ws.files[dest].statements| - 1] == last
  }

  /** One copy step leaves a file ending with the copy, whether or not it is the step's destination. */
  lemma CopyStepKeepsLast(ws: Workspace, project: string, source: string, decl: Statement, fragment: string, dest: string)
    requires decl.Function? && decl.doc.Some?
    requires EndsWith(ws, dest, CopyOf(decl, source)) || (IsFileAt(ws, dest) && dest == DestinationPath(project, fragment))
    ensures EndsWith(CopyToDestination(ws, project, source, decl, fragment), dest, CopyOf(decl, source))
  {
    if dest == DestinationPath(project, fragment) {
      CopyStepAtDestination(ws, project, source, decl, fragment);
    } else {
      CopyStepElsewhere(ws, project, source, decl, fragment, dest);
    }
  }

  /** The step's own destination ends with the copy. */
  lemma CopyStepAtDestination(ws: Workspace, project: string, source: string, decl: Statement, fragment: string)
    requires decl.Function? && decl.doc.Some? && IsFileAt(ws, DestinationPath(project, fragment))
    ensures EndsWith(CopyToDestination(ws, project, source, decl, fragment), DestinationPath(project, fragment), CopyOf(decl, source))
  {
    var dest := DestinationPath(project, fragment);
    var copied := CopyInto(ws.files[dest].statements, decl, source);
    assert CopyToDestination(ws, project, source, decl, fragment).files[dest] == File(copied);
  }

  /** Any other file keeps its statements, so still ends with the copy. */
  lemma CopyStepElsewhere(ws: Workspace, project: string, source: string, decl: Statement, fragment: string, dest: string)
    requires decl.Function? && decl.doc.Some?
    requires EndsWith(ws, dest, CopyOf(decl, source)) && dest != DestinationPath(project, fragment)
    ensures EndsWith(CopyToDestination(ws, project, source, decl, fragment), dest, CopyOf(decl, source))
  {
    assert CopyToDestination(ws, project, source, decl, fragment).files[dest] == ws.files[dest];
  }

  /** A destination that already ends with the copy still does after any further copies. */
  lemma {:induction false} CopyStaysLast(ws: Workspace, project: string, source: string, decl: Statement, fragments: seq<string>, j: nat, dest: string)
    requires decl.Function? && decl.doc.Some?
    requires EndsWith(ws, dest, CopyOf(decl, source))
    ensures EndsWith(CopyToAll(ws, project, source, decl, fragments, j), dest, CopyOf(decl, source))
    decreases |fragments| - j
  {
    if j < |fragments| {
      CopyStepKeepsLast(ws, project, source, decl, fragments[j], dest);
      CopyStaysLast(CopyToDestination(ws, project, source, decl, fragments[j]), project, source, decl, fragments, j + 1, dest);
    }
  }

  /**
   * Fan-out: every fragment that names an existing file gets the copy; after
   * all destinations are processed, each such file ends with the copy.
   */
  lemma {:induction false} FanOut(ws: Workspace, project: string, source: string, decl: Statement, fragments: seq<string>, j: nat, k: nat)
    requires decl.Function? && decl.doc.Some?
    requires j <= k < |fragments| && IsFileAt(ws, DestinationPath(project, fragments[k]))
    ensures EndsWith(CopyToAll(ws, project, source, decl, fragments, j), DestinationPath(project, fragments[k]), CopyOf(decl, source))
    decreases k - j
  {
    var next := CopyToDestination(ws, project, source, decl, fragments[j]);
    var dest := DestinationPath(project, fragments[k]);
    if j == k {
      CopyStepKeepsLast(ws, project, source, decl, fragments[j], dest);
      CopyStaysLast(next, project, source, decl, fragments, j + 1, dest);
    } else {
      assert IsFileAt(next, dest);
      FanOut(next, project, source, decl, fragments, j + 1, k);
    }
  }

  /** The `@generatedFrom` target was not found as a resource, or is a file without the function. */
  predicate BrokenLink(ws: Workspace, name: string, value: string)
  {
    var target := Trim(value);
    target !in ws.files || (ws.files[target].File? && !HasFunction(ws.files[target].statements, name))
  }

  /**
   * The link check of one function: a missing target resource gives
   * "Cannot find resource", a target file without the function gives
   * "Cannot find source function", and a target that exists but is not a
   * file gives nothing.
   */
  function CheckProvenance(ws: Workspace, file: string, name: string, line: int, value: string): (r: Workspace)
    ensures r.files == ws.files && r.unsaved == ws.unsaved
    ensures !BrokenLink(ws, name, value) <==> r.markers == ws.markers
    ensures BrokenLink(ws, name, value) ==>
      && |r.markers| == |ws.markers| + 1 && r.markers[..|ws.markers|] == ws.markers
      && r.markers[|ws.markers|].file == file && r.markers[|ws.markers|].severity == SeverityError
      && r.markers[|ws.markers|].message
         == (if Trim(value) !in ws.files then CannotFindResource else CannotFindFunction) + value
      && r.markers[|ws.markers|].line == (if line == -1 then 1 else line)
  {
    var target := Trim(value);
    if target !in ws.files then
      ws.(markers := AddMarker(ws.markers, file, CannotFindResource + value, line, SeverityError))
    else if ws.files[target].File? && !HasFunction(ws.files[target].statements, name) then
      ws.(markers := AddMarker(ws.markers, file, CannotFindFunction + value, line, SeverityError))
    else
      ws
  }

  /** The marker the link check adds for a broken link, written out whole. */
  lemma CheckProvenanceAppends(ws: Workspace, file: string, name: string, line: int, value: string)
    requires BrokenLink(ws, name, value)
    ensures CheckProvenance(ws, file, name, line, value).markers
      == ws.markers + [Marker(file, (if Trim(value) !in ws.files then CannotFindResource else CannotFindFunction) + value,
                              if line == -1 then 1 else line, SeverityError)]
  {
    var r := CheckProvenance(ws, file, name, line, value);
    assert r.markers == r.markers[..|ws.markers|] + [r.markers[|ws.markers|]];
  }

  /** A step of a loop that may stop on an exception: the state reached, and whether it ended normally. */
  datatype Step = Step(ws: Workspace, ok: bool)

  /**
   * The declaration that findFunction picks for the i-th statement of the
   * snapshot (the first one of the same name), when that statement is a
   * documented function.
   */
  predicate SourceDocumented(snapshot: seq<Statement>, i: nat)
    requires i < |snapshot|
  {
    snapshot[i].Function? && snapshot[i].doc.Some? ==>
      var k := FindFunction(snapshot, snapshot[i].name);
      k.Some? && snapshot[k.value].doc.Some?
  }

  /**
   * The body of process's loop for the i-th statement of the file. Only a
   * function with a comment is looked at. Its declaration is the first one of
   * its name in the file; if that one has no comment, replaceCopyTo or
   * getGeneratedFrom dereferences null and the step fails with nothing
   * changed. Otherwise the function is copied to every `@copyTo`
   * destination and its `@generatedFrom` link, if any, is checked.
   */
  function ProcessDeclaration(ws: Workspace, project: string, file: string, snapshot: seq<Statement>, i: nat): (r: Step)
    requires i < |snapshot|
    ensures SameShape(ws, r.ws) && MarkersExtend(ws.markers, r.ws.markers, file)
    ensures r.ok <==> SourceDocumented(snapshot, i)
    ensures !r.ok ==> r.ws == ws
  {
    match snapshot[i]
    case OtherStatement(_) => Step(ws, true)
    case Function(name, doc, _) =>
      if doc.None? then Step(ws, true)
      else
        var k := FindFunction(snapshot, name).value;
        var decl := snapshot[k];
        if decl.doc.None? then Step(ws, false)
        else Step(HandleFunction(ws, project, file, name, doc.value, decl), true)
  }

  /**
   * A documented function whose declaration has a comment: its copies go
   * to the `@copyTo` destinations of its own comment, then the
   * declaration's `@generatedFrom` link is checked.
   */
  function HandleFunction(ws: Workspace, project: string, file: string, name: string, doc: Doc, decl: Statement): (r: Workspace)
    requires decl.Function? && decl.doc.Some?
    ensures SameShape(ws, r) && MarkersExtend(ws.markers, r.markers, file)
    ensures GetCopyTo(doc.text).Some? ==> r.files == CopyToAll(ws, project, file, decl, GetCopyTo(doc.text).value, 0).files
    ensures GetCopyTo(doc.text).None? ==> r.files == ws.files
    ensures GetGeneratedFrom(decl.doc.value.tags).None? ==> r.markers == ws.markers
    ensures GetGeneratedFrom(decl.doc.value.tags).Some? ==>
      r.markers == CheckProvenance(ws.(files := r.files), file, name, doc.end, GetGeneratedFrom(decl.doc.value.tags).value).markers
  {
    var fragments := GetCopyTo(doc.text);
    var copied := if fragments.Some? then CopyToAll(ws, project, file, decl, fragments.value, 0) else ws;
    assert copied == ws.(files := copied.files, unsaved := copied.unsaved);
    var source := GetGeneratedFrom(decl.doc.value.tags);
    if source.Some? then CheckProvenance(copied, file, name, doc.end, source.value) else copied
  }

  /** `dest` is the path of one of the `@copyTo` fragments in the comment text `text`. */
  predicate CopiesTo(project: string, text: string, dest: string)
  {
    GetCopyTo(text).Some? && exists k :: 0 <= k < |GetCopyTo(text).value| && DestinationPath(project, GetCopyTo(text).value[k]) == dest
  }

  /**
   * A turn that handles a function copies its first declaration into every
   * `@copyTo` destination of its comment that is a file: each such file
   * ends with the copy, the `@generatedFrom` check changing only markers.
   */
  lemma HandleFunctionReplicates(ws: Workspace, project: string, file: string, name: string, doc: Doc, decl: Statement, dest: string)
    requires decl.Function? && decl.doc.Some? && CopiesTo(project, doc.text, dest) && IsFileAt(ws, dest)
    ensures EndsWith(HandleFunction(ws, project, file, name, doc, decl), dest, CopyOf(decl, file))
  {
    var copied := CopyToAll(ws, project, file, decl, GetCopyTo(doc.text).value, 0);
    CopiesReachDestination(ws, project, file, decl, doc.text, dest);
    SameFilesEndWith(copied, HandleFunction(ws, project, file, name, doc, decl), dest, CopyOf(decl, file));
  }

  /** FanOut for a destination named by one of the `@copyTo` fragments of `text`. */
  lemma CopiesReachDestination(ws: Workspace, project: string, source: string, decl: Statement, text: string, dest: string)
    requires decl.Function? && decl.doc.Some? && CopiesTo(project, text, dest) && IsFileAt(ws, dest)
    ensures EndsWith(CopyToAll(ws, project, source, decl, GetCopyTo(text).value, 0), dest, CopyOf(decl, source))
  {
    var fragments := GetCopyTo(text).value;
    var k :| 0 <= k < |fragments| && DestinationPath(project, fragments[k]) == dest;
    FanOut(ws, project, source, decl, fragments, 0, k);
  }

  /** Whether a file ends with a statement depends on the files alone. */
  lemma SameFilesEndWith(a: Workspace, b: Workspace, dest: string, last: Statement)
    requires a.files == b.files && EndsWith(a, dest, last)
    ensures EndsWith(b, dest, last)
  {
  }

  /** `decl` is the declaration findFunction picks in the snapshot for its own name, and it has a comment. */
  predicate FirstDeclaration(snapshot: seq<Statement>, decl: Statement)
  {
    && decl.Function? && decl.doc.Some?
    && FindFunction(snapshot, decl.name).Some? && snapshot[FindFunction(snapshot, decl.name).value] == decl
  }

  /** The declaration process copies for the documented function at `m`: the first one of its name. */
  function FirstOf(snapshot: seq<Statement>, m: nat): (decl: Statement)
    requires m < |snapshot| && snapshot[m].Function? && snapshot[m].doc.Some? && SourceDocumented(snapshot, m)
    ensures FirstDeclaration(snapshot, decl) && decl.name == snapshot[m].name
  {
    snapshot[FindFunction(snapshot, snapshot[m].name).value]
  }

  /**
   * The turn for a documented function whose first declaration has a
   * comment succeeds, and every `@copyTo` destination of the function's own
   * comment that is a file ends with the copy of that first declaration.
   */
  lemma ProcessDeclarationReplicates(ws: Workspace, project: string, file: string, snapshot: seq<Statement>, m: nat, dest: string)
    requires m < |snapshot| && snapshot[m].Function? && snapshot[m].doc.Some? && SourceDocumented(snapshot, m)
    requires CopiesTo(project, snapshot[m].doc.value.text, dest) && IsFileAt(ws, dest)
    ensures var r := ProcessDeclaration(ws, project, file, snapshot, m);
      r.ok && EndsWith(r.ws, dest, CopyOf(FirstOf(snapshot, m), file))
  {
    HandleFunctionReplicates(ws, project, file, snapshot[m].name, snapshot[m].doc.value, FirstOf(snapshot, m), dest);
  }

  /** The file at `dest` holds the statement `x`. */
  predicate Holds(ws: Workspace, dest: string, x: Statement)
  {
    IsFileAt(ws, dest) && x in ws.files[dest].statements
  }

  /** A file that ends with a statement holds it. */
  lemma EndsWithHolds(ws: Workspace, dest: string, x: Statement)
    requires EndsWith(ws, dest, x)
    ensures Holds(ws, dest, x)
  {
    var stmts := ws.files[dest].statements;
    assert stmts[|stmts| - 1] == x;
  }

  /** Taking out the first function of another name keeps a statement. */
  lemma RemoveKeepsOther(stmts: seq<Statement>, name: string, x: Statement)
    requires x in stmts && !IsFunctionNamed(x, name)
    ensures x in RemoveFunction(stmts, name)
  {
    var r := RemoveFunction(stmts, name);
    var j :| 0 <= j < |stmts| && stmts[j] == x;
    match FindFunction(stmts, name)
    case None =>
    case Some(i) =>
      if j < i {
        assert r[j] == x;
      } else {
        assert r[j - 1] == x;
      }
  }

  /** A copy step keeps a statement that is not a function of the copied name, or is that very copy. */
  lemma CopyIntoKeeps(stmts: seq<Statement>, decl: Statement, source: string, x: Statement)
    requires decl.Function? && decl.doc.Some? && x in stmts
    requires !IsFunctionNamed(x, decl.name) || x == CopyOf(decl, source)
    ensures x in CopyInto(stmts, decl, source)
  {
    var r := CopyInto(stmts, decl, source);
    if x == CopyOf(decl, source) {
      assert r[|r| - 1] == x;
    } else {
      RemoveKeepsOther(stmts, decl.name, x);
      assert r == RemoveFunction(stmts, decl.name) + [CopyOf(decl, source)];
    }
  }

  /** The copies of one declaration keep such a statement in every file. */
  lemma {:induction false} CopyToAllKeeps(ws: Workspace, project: string, source: string, decl: Statement, fragments: seq<string>, j: nat, dest: string, x: Statement)
    requires decl.Function? && decl.doc.Some? && Holds(ws, dest, x)
    requires !IsFunctionNamed(x, decl.name) || x == CopyOf(decl, source)
    ensures Holds(CopyToAll(ws, project, source, decl, fragments, j), dest, x)
    decreases |fragments| - j
  {
    if j < |fragments| {
      var next := CopyStepKeeps(ws, project, source, decl, fragments[j], dest, x);
      CopyToAllKeeps(next, project, source, decl, fragments, j + 1, dest, x);
    }
  }

  /** One copy step keeps such a statement in the file at `dest`. */
  lemma CopyStepKeeps(ws: Workspace, project: string, source: string, decl: Statement, fragment: string, dest: string, x: Statement)
      returns (next: Workspace)
    requires decl.Function? && decl.doc.Some? && Holds(ws, dest, x)
    requires !IsFunctionNamed(x, decl.name) || x == CopyOf(decl, source)
    ensures next == CopyToDestination(ws, project, source, decl, fragment) && Holds(next, dest, x)
  {
    next := CopyToDestination(ws, project, source, decl, fragment);
    if dest == DestinationPath(project, fragment) {
      CopyKeepsAtDestination(ws, project, source, decl, fragment, x);
    } else {
      CopyLeavesOthers(ws, project, source, decl, fragment, dest);
    }
  }

  /** A copy step changes no file but its destination. */
  lemma CopyLeavesOthers(ws: Workspace, project: string, source: string, decl: Statement, fragment: string, dest: string)
    requires decl.Function? && decl.doc.Some? && dest in ws.files && dest != DestinationPath(project, fragment)
    ensures dest in CopyToDestination(ws, project, source, decl, fragment).files
    ensures CopyToDestination(ws, project, source, decl, fragment).files[dest] == ws.files[dest]
  {
    var target := DestinationPath(project, fragment);
    var r := CopyToDestination(ws, project, source, decl, fragment);
    if IsFileAt(ws, target) {
      assert r.files == ws.files[target := File(CopyInto(ws.files[target].statements, decl, source))];
    }
  }

  /** CopyStepKeeps at the step's own destination. */
  lemma CopyKeepsAtDestination(ws: Workspace, project: string, source: string, decl: Statement, fragment: string, x: Statement)
    requires decl.Function? && decl.doc.Some? && Holds(ws, DestinationPath(project, fragment), x)
    requires !IsFunctionNamed(x, decl.name) || x == CopyOf(decl, source)
    ensures Holds(CopyToDestination(ws, project, source, decl, fragment), DestinationPath(project, fragment), x)
  {
    var dest := DestinationPath(project, fragment);
    var stmts := ws.files[dest].statements;
    CopyIntoKeeps(stmts, decl, source, x);
    assert CopyToDestination(ws, project, source, decl, fragment).files[dest] == File(CopyInto(stmts, decl, source));
  }

  /**
   * Any turn of process keeps the copy of a first declaration where it is:
   * a later function of the same name copies that same declaration again.
   */
  lemma ProcessDeclarationKeeps(ws: Workspace, project: string, file: string, snapshot: seq<Statement>, i: nat, decl: Statement, dest: string)
    requires i < |snapshot| && FirstDeclaration(snapshot, decl) && Holds(ws, dest, CopyOf(decl, file))
    ensures Holds(ProcessDeclaration(ws, project, file, snapshot, i).ws, dest, CopyOf(decl, file))
  {
    var x := CopyOf(decl, file);
    match snapshot[i]
    case OtherStatement(_) =>
    case Function(name, doc, _) =>
      if doc.Some? {
        var d := snapshot[FindFunction(snapshot, name).value];
        if d.doc.Some? {
          var fragments := GetCopyTo(doc.value.text);
          if fragments.Some? {
            CopyToAllKeeps(ws, project, file, d, fragments.value, 0, dest, x);
          }
        }
      }
  }

  /** The rest of process's loop keeps the copy of a first declaration. */
  lemma {:induction false} ProcessFromKeeps(ws: Workspace, project: string, file: string, snapshot: seq<Statement>, i: nat, decl: Statement, dest: string)
    requires FirstDeclaration(snapshot, decl) && Holds(ws, dest, CopyOf(decl, file))
    ensures Holds(ProcessFrom(ws, project, file, snapshot, i).ws, dest, CopyOf(decl, file))
    decreases |snapshot| - i
  {
    if i < |snapshot| {
      var s := ProcessDeclaration(ws, project, file, snapshot, i);
      ProcessDeclarationKeeps(ws, project, file, snapshot, i, decl, dest);
      if s.ok {
        ProcessFromKeeps(s.ws, project, file, snapshot, i + 1, decl, dest);
      }
    }
  }

  /**
   * Replication through process's loop: once the loop gets past the m-th
   * statement, a documented function, every `@copyTo` destination of its
   * comment that is a file holds the copy of its first declaration, and
   * still does when the loop ends.
   */
  lemma ProcessFromReplicates(ws: Workspace, project: string, file: string, snapshot: seq<Statement>, i: nat, m: nat, dest: string)
    requires i <= m < |snapshot| && snapshot[m].Function? && snapshot[m].doc.Some?
    requires (forall j :: i <= j < m ==> SourceDocumented(snapshot, j)) && SourceDocumented(snapshot, m)
    requires CopiesTo(project, snapshot[m].doc.value.text, dest) && IsFileAt(ws, dest)
    ensures Holds(ProcessFrom(ws, project, file, snapshot, i).ws, dest, CopyOf(FirstOf(snapshot, m), file))
  {
    var w := ProcessFromReaches(ws, project, file, snapshot, i, m);
    assert IsFileAt(w, dest);
    ProcessFromUnfold(w, project, file, snapshot, m);
    ReplicatedTurn(w, project, file, snapshot, m, dest);
  }

  /**
   * The turns before the m-th all end normally: the loop from `i` comes to
   * the m-th statement with the same resources, each of the same kind.
   */
  lemma {:induction false} ProcessFromReaches(ws: Workspace, project: string, file: string, snapshot: seq<Statement>, i: nat, m: nat)
      returns (w: Workspace)
    requires i <= m <= |snapshot| && (forall j :: i <= j < m ==> SourceDocumented(snapshot, j))
    ensures SameShape(ws, w) && ProcessFrom(ws, project, file, snapshot, i) == ProcessFrom(w, project, file, snapshot, m)
    decreases m - i
  {
    if i == m {
      w := ws;
    } else {
      var next := TurnPasses(ws, project, file, snapshot, i);
      w := ProcessFromReaches(next, project, file, snapshot, i + 1, m);
    }
  }

  /**
   * A turn whose function has a commented first declaration ends normally,
   * keeps the resources and their kinds and hands its state to the rest of
   * the loop.
   */
  lemma TurnPasses(ws: Workspace, project: string, file: string, snapshot: seq<Statement>, i: nat) returns (next: Workspace)
    requires i < |snapshot| && SourceDocumented(snapshot, i)
    ensures SameShape(ws, next) && ProcessFrom(ws, project, file, snapshot, i) == ProcessFrom(next, project, file, snapshot, i + 1)
  {
    next := ProcessDeclaration(ws, project, file, snapshot, i).ws;
    ProcessFromUnfold(ws, project, file, snapshot, i);
  }

  /** A turn that ends normally hands its state to the rest of the loop. */
  lemma ProcessFromUnfold(ws: Workspace, project: string, file: string, snapshot: seq<Statement>, i: nat)
    requires i < |snapshot| && ProcessDeclaration(ws, project, file, snapshot, i).ok
    ensures ProcessFrom(ws, project, file, snapshot, i)
      == ProcessFrom(ProcessDeclaration(ws, project, file, snapshot, i).ws, project, file, snapshot, i + 1)
  {
  }

  /** The turn of the m-th function places the copy, and the rest of the loop keeps it. */
  lemma ReplicatedTurn(ws: Workspace, project: string, file: string, snapshot: seq<Statement>, m: nat, dest: string)
    requires m < |snapshot| && snapshot[m].Function? && snapshot[m].doc.Some? && SourceDocumented(snapshot, m)
    requires CopiesTo(project, snapshot[m].doc.value.text, dest) && IsFileAt(ws, dest)
    ensures Holds(ProcessFrom(ProcessDeclaration(ws, project, file, snapshot, m).ws, project, file, snapshot, m + 1).ws,
                  dest, CopyOf(FirstOf(snapshot, m), file))
  {
    var s := ProcessDeclaration(ws, project, file, snapshot, m);
    var x := CopyOf(FirstOf(snapshot, m), file);
    ProcessDeclarationReplicates(ws, project, file, snapshot, m, dest);
    EndsWithHolds(s.ws, dest, x);
    ProcessFromKeeps(s.ws, project, file, snapshot, m + 1, FirstOf(snapshot, m), dest);
  }

  /**
   * Replication by process: when every documented function up to the m-th
   * statement of the file has a commented first declaration, each
   * `@copyTo` destination of the m-th function that is a file ends up
   * holding the copy of that function's first declaration.
   */
  lemma ProcessReplicates(ws: Workspace, project: string, path: string, m: nat, dest: string)
    requires IsFileAt(ws, path) && IsJavaScriptLikeName(path) && m < |ws.files[path].statements|
    requires var snapshot := ws.files[path].statements;
      && snapshot[m].Function? && snapshot[m].doc.Some?
      && (forall j :: 0 <= j < m ==> SourceDocumented(snapshot, j)) && SourceDocumented(snapshot, m)
      && CopiesTo(project, snapshot[m].doc.value.text, dest) && IsFileAt(ws, dest)
    ensures Holds(Process(ws, project, path).ws, dest, CopyOf(FirstOf(ws.files[path].statements, m), path))
  {
    var cleared := ws.(markers := DeleteMarkers(ws.markers, path));
    ProcessFromReplicates(cleared, project, path, ws.files[path].statements, 0, m, dest);
  }

  /**
   * The link check in the turn of a documented function whose first
   * declaration carries `@generatedFrom v`: the turn ends normally and adds
   * a marker exactly when the link is broken once the copies are made. The
   * marker is on the processed file, at the end of the function's own
   * comment (1 for -1), with "Cannot find resource " + v when no resource
   * has the trimmed path and "Cannot find source function " + v otherwise.
   * A target that exists but is not a file is never broken, so it adds no
   * marker.
   */
  lemma ProcessDeclarationFlags(ws: Workspace, project: string, file: string, snapshot: seq<Statement>, m: nat)
    requires m < |snapshot| && snapshot[m].Function? && snapshot[m].doc.Some? && SourceDocumented(snapshot, m)
    requires GetGeneratedFrom(FirstOf(snapshot, m).doc.value.tags).Some?
    ensures var r := ProcessDeclaration(ws, project, file, snapshot, m);
      var v := GetGeneratedFrom(FirstOf(snapshot, m).doc.value.tags).value;
      var end := snapshot[m].doc.value.end;
      && r.ok
      && (BrokenLink(r.ws, snapshot[m].name, v) <==> r.ws.markers != ws.markers)
      && (BrokenLink(r.ws, snapshot[m].name, v) ==>
            r.ws.markers == ws.markers + [Marker(file, (if Trim(v) !in ws.files then CannotFindResource else CannotFindFunction) + v,
                                                 if end == -1 then 1 else end, SeverityError)])
  {
    var decl := FirstOf(snapshot, m);
    var name := snapshot[m].name;
    var doc := snapshot[m].doc.value;
    var v := GetGeneratedFrom(decl.doc.value.tags).value;
    var r := ProcessDeclaration(ws, project, file, snapshot, m);
    var h := HandleFunction(ws, project, file, name, doc, decl);
    assert r.ws == h;
    var copied := ws.(files := h.files);
    assert BrokenLink(copied, name, v) == BrokenLink(h, name, v);
    assert Trim(v) in copied.files <==> Trim(v) in ws.files;
    if BrokenLink(copied, name, v) {
      CheckProvenanceAppends(copied, file, name, doc.end, v);
    }
  }

  /**
   * Dangling detection by process: when the turns up to the m-th statement
   * of the file end normally and the m-th, a documented function, has a
   * first declaration whose `@generatedFrom` names no resource, the
   * markers after process hold the "Cannot find resource" error marker on
   * the file, at the end of that function's comment.
   */
  lemma ProcessFlagsMissingSource(ws: Workspace, project: string, path: string, m: nat)
    requires IsFileAt(ws, path) && IsJavaScriptLikeName(path) && m < |ws.files[path].statements|
    requires var snapshot := ws.files[path].statements;
      && snapshot[m].Function? && snapshot[m].doc.Some?
      && (forall j :: 0 <= j < m ==> SourceDocumented(snapshot, j)) && SourceDocumented(snapshot, m)
      && GetGeneratedFrom(FirstOf(snapshot, m).doc.value.tags).Some?
      && Trim(GetGeneratedFrom(FirstOf(snapshot, m).doc.value.tags).value) !in ws.files
    ensures var snapshot := ws.files[path].statements;
      var v := GetGeneratedFrom(FirstOf(snapshot, m).doc.value.tags).value;
      var end := snapshot[m].doc.value.end;
      Marker(path, CannotFindResource + v, if end == -1 then 1 else end, SeverityError) in Process(ws, project, path).ws.markers
  {
    var snapshot := ws.files[path].statements;
    var v := GetGeneratedFrom(FirstOf(snapshot, m).doc.value.tags).value;
    var end := snapshot[m].doc.value.end;
    var x := Marker(path, CannotFindResource + v, if end == -1 then 1 else end, SeverityError);
    var cleared := ws.(markers := DeleteMarkers(ws.markers, path));
    var w := ProcessFromReaches(cleared, project, path, snapshot, 0, m);
    assert Trim(v) !in w.files;
    ProcessFromUnfold(w, project, path, snapshot, m);
    var s := ProcessDeclaration(w, project, path, snapshot, m);
    ProcessDeclarationFlags(w, project, path, snapshot, m);
    assert s.ws.markers == w.markers + [x];
    MarkerKept(s.ws, project, path, snapshot, m + 1, x);
  }

  /** A marker once placed stays through the rest of the loop. */
  lemma MarkerKept(ws: Workspace, project: string, file: string, snapshot: seq<Statement>, i: nat, x: Marker)
    requires x in ws.markers
    ensures x in ProcessFrom(ws, project, file, snapshot, i).ws.markers
  {
    var r := ProcessFrom(ws, project, file, snapshot, i).ws;
    var k :| 0 <= k < |ws.markers| && ws.markers[k] == x;
    assert r.markers[..|ws.markers|][k] == x;
  }

  /** process's loop over the statements `snapshot[i..]`, stopping at the first failure. */
  function ProcessFrom(ws: Workspace, project: string, file: string, snapshot: seq<Statement>, i: nat): (r: Step)
    ensures SameShape(ws, r.ws) && MarkersExtend(ws.markers, r.ws.markers, file)
    ensures r.ok <==> forall k :: i <= k < |snapshot| ==> SourceDocumented(snapshot, k)
    decreases |snapshot| - i
  {
    if i >= |snapshot| then Step(ws, true)
    else
      var s := ProcessDeclaration(ws, project, file, snapshot, i);
      if !s.ok then s
      else
        var r := ProcessFrom(s.ws, project, file, snapshot, i + 1);
        ExtendTransitive(ws, s.ws, r.ws, file);
        r
  }

  lemma ExtendTransitive(a: Workspace, b: Workspace, c: Workspace, file: string)
    requires SameShape(a, b) && MarkersExtend(a.markers, b.markers, file)
    requires SameShape(b, c) && MarkersExtend(b.markers, c.markers, file)
    ensures SameShape(a, c) && MarkersExtend(a.markers, c.markers, file)
  {
    assert c.markers[..|a.markers|] == c.markers[..|b.markers|][..|a.markers|];
  }

  /**
   * process: a resource that is not a file with a JavaScript-like name is
   * ignored; otherwise the file's markers are deleted first and then every
   * top-level function of the file, as it was when processing started, is
   * handled in order.
   */
  function Process(ws: Workspace, project: string, path: string): (r: Step)
    ensures !(IsFileAt(ws, path) && IsJavaScriptLikeName(path)) ==> r == Step(ws, true)
  {
    if IsFileAt(ws, path) && IsJavaScriptLikeName(path) then
      ProcessFrom(ws.(markers := DeleteMarkers(ws.markers, path)), project, path, ws.files[path].statements, 0)
    else
      Step(ws, true)
  }

  /**
   * The markers after process: the old markers of other files, in order,
   * then only new error markers on the processed file.
   */
  lemma ProcessMarkers(ws: Workspace, project: string, path: string)
    requires IsFileAt(ws, path) && IsJavaScriptLikeName(path)
    ensures var r := Process(ws, project, path).ws;
      && MarkersExtend(DeleteMarkers(ws.markers, path), r.markers, path)
      && (forall m :: m in ws.markers && m.file != path ==> m in r.markers)
      && (forall m :: m in r.markers && m.file != path ==> m in ws.markers)
  {
    var cleared := DeleteMarkers(ws.markers, path);
    var r := Process(ws, project, path).ws;
    forall m | m in r.markers && m.file != path ensures m in ws.markers {
      var k :| 0 <= k < |r.markers| && r.markers[k] == m;
      assert k < |cleared|;
      assert m == r.markers[..|cleared|][k];
    }
    forall m | m in ws.markers && m.file != path ensures m in r.markers {
      assert m in cleared;
      var k :| 0 <= k < |cleared| && cleared[k] == m;
      assert r.markers[..|cleared|][k] == m;
    }
  }

  /** process never creates or deletes resources, and never turns a file into a container or back. */
  lemma ProcessKeepsResources(ws: Workspace, project: string, path: string)
    ensures SameShape(ws, Process(ws, project, path).ws)
  {
  }

  /**
   * process throws exactly when some documented function's first
   * declaration of the same name has no comment.
   */
  lemma ProcessFails(ws: Workspace, project: string, path: string)
    requires IsFileAt(ws, path) && IsJavaScriptLikeName(path)
    ensures var snapshot := ws.files[path].statements;
      !Process(ws, project, path).ok <==> exists k :: 0 <= k < |snapshot| && !SourceDocumented(snapshot, k)
  {
  }

  /** A function declared twice, first without a comment, makes process throw. */
  lemma UndocumentedTwinFails(ws: Workspace, project: string, path: string, name: string, doc: Doc, b1: string, b2: string)
    requires IsJavaScriptLikeName(path)
    requires path in ws.files && ws.files[path] == File([Function(name, None, b1), Function(name, Some(doc), b2)])
    ensures !Process(ws, project, path).ok
  {
    var snapshot := ws.files[path].statements;
    assert FindFunction(snapshot, name) == Some(0);
    assert !SourceDocumented(snapshot, 1);
    ProcessFails(ws, project, path);
  }

  // ----------------------------------------------------------------------
  // processRemovedResource: the removal cascade

  /**
   * One turn of the removal loop of one file: a documented function whose
   * comment text contains "@generatedFrom " followed by the removed path
   * makes the first function of its name in the file's current buffer go
   * away, and the buffer is set but not saved.
   */
  function RemoveStep(ws: Workspace, path: string, removed: string, s: Statement): (r: Workspace)
    requires IsFileAt(ws, path)
    ensures IsFileAt(r, path) && SameShape(ws, r) && r.markers == ws.markers && ws.unsaved <= r.unsaved
    ensures forall p :: p in ws.files && p != path ==> r.files[p] == ws.files[p]
    ensures |r.files[path].statements| <= |ws.files[path].statements|
    ensures s.Function? && s.doc.Some? && IsGenerated(s.doc.value.text, removed) ==>
      r.files[path].statements == RemoveFunction(ws.files[path].statements, s.name) && r.unsaved == ws.unsaved + {path}
    ensures !(s.Function? && s.doc.Some? && IsGenerated(s.doc.value.text, removed)) ==> r == ws
  {
    match s
    case Function(name, Some(doc), _) =>
      if IsGenerated(doc.text, removed) then
        ws.(files := ws.files[path := File(RemoveFunction(ws.files[path].statements, name))],
            unsaved := ws.unsaved + {path})
      else ws
    case _ => ws
  }

  /** The removal loop over the functions `snapshot[i..]` of one file, as the file was when the loop began. */
  function RemoveInFile(ws: Workspace, path: string, removed: string, snapshot: seq<Statement>, i: nat): (r: Workspace)
    requires IsFileAt(ws, path)
    ensures IsFileAt(r, path) && SameShape(ws, r) && r.markers == ws.markers && ws.unsaved <= r.unsaved
    ensures forall p :: p in ws.files && p != path ==> r.files[p] == ws.files[p]
    ensures |r.files[path].statements| <= |ws.files[path].statements|
    decreases |snapshot| - i
  {
    if i >= |snapshot| then ws
    else RemoveInFile(RemoveStep(ws, path, removed, snapshot[i]), path, removed, snapshot, i + 1)
  }

  /**
   * processRemovedResource over the resources `scan[i..]` of every
   * JavaScript project, in visiting order. Resources without a
   * JavaScript-like name are passed over; a container with such a name
   * makes the cast to IFile throw, and the exception ends the whole scan.
   */
  function RemoveScan(ws: Workspace, removed: string, scan: seq<string>, i: nat): (r: Workspace)
    ensures SameShape(ws, r) && r.markers == ws.markers && ws.unsaved <= r.unsaved
    ensures forall p :: p in ws.files && !IsJavaScriptLikeName(p) ==> r.files[p] == ws.files[p]
    decreases |scan| - i
  {
    if i >= |scan| then ws
    else
      var p := scan[i];
      if !IsJavaScriptLikeName(p) || p !in ws.files then RemoveScan(ws, removed, scan, i + 1)
      else if ws.files[p].Folder? then ws
      else RemoveScan(RemoveInFile(ws, p, removed, ws.files[p].statements, 0), removed, scan, i + 1)
  }

  /** A resource without a JavaScript-like name, or not in the workspace, is passed over. */
  lemma ScanSkips(ws: Workspace, removed: string, scan: seq<string>, i: nat)
    requires i < |scan| && (!IsJavaScriptLikeName(scan[i]) || scan[i] !in ws.files)
    ensures RemoveScan(ws, removed, scan, i) == RemoveScan(ws, removed, scan, i + 1)
  {
  }

  /** A container with a JavaScript-like name ends the scan. */
  lemma ScanEnds(ws: Workspace, removed: string, scan: seq<string>, i: nat)
    requires i < |scan| && IsJavaScriptLikeName(scan[i]) && scan[i] in ws.files && ws.files[scan[i]].Folder?
    ensures RemoveScan(ws, removed, scan, i) == ws
  {
  }

  /** A file with a JavaScript-like name runs its removal loop, which changes no other resource. */
  lemma ScanVisits(ws: Workspace, removed: string, scan: seq<string>, i: nat) returns (next: Workspace)
    requires i < |scan| && IsJavaScriptLikeName(scan[i]) && IsFileAt(ws, scan[i])
    ensures next == RemoveInFile(ws, scan[i], removed, ws.files[scan[i]].statements, 0)
    ensures RemoveScan(ws, removed, scan, i) == RemoveScan(next, removed, scan, i + 1)
    ensures SameShape(ws, next) && forall p :: p in ws.files && p != scan[i] ==> next.files[p] == ws.files[p]
  {
    next := RemoveInFile(ws, scan[i], removed, ws.files[scan[i]].statements, 0);
  }

  /** ScanVisits without the removal loop's definition: what the rest of the scan starts from. */
  lemma ScanVisitsOther(ws: Workspace, removed: string, scan: seq<string>, i: nat) returns (next: Workspace)
    requires i < |scan| && IsJavaScriptLikeName(scan[i]) && IsFileAt(ws, scan[i])
    ensures RemoveScan(ws, removed, scan, i) == RemoveScan(next, removed, scan, i + 1)
    ensures SameShape(ws, next) && forall p :: p in ws.files && p != scan[i] ==> next.files[p] == ws.files[p]
  {
    next := ScanVisits(ws, removed, scan, i);
  }

  /** The m-th statement is a function generated from `removed`, the only one of its name in `stmts`. */
  predicate GeneratedReplica(stmts: seq<Statement>, m: nat, removed: string)
  {
    && m < |stmts| && stmts[m].Function? && stmts[m].doc.Some?
    && IsGenerated(stmts[m].doc.value.text, removed) && AtMostOneNamed(stmts, stmts[m].name)
  }

  /** No container with a JavaScript-like name among `scan[i..k]`. */
  predicate NoFolderBefore(ws: Workspace, scan: seq<string>, i: nat, k: nat)
    requires k <= |scan|
  {
    forall j :: i <= j < k && scan[j] in ws.files && IsJavaScriptLikeName(scan[j]) ==> ws.files[scan[j]].File?
  }

  /**
   * The scan reaches a replica: if no container with a JavaScript-like name
   * comes before the file `scan[k]` in the scan, and a function of that file
   * is generated from the removed path while the file holds at most one
   * function of its name, no function of that name is left in the file.
   */
  lemma {:induction false} ScanRemovesReplica(ws: Workspace, removed: string, scan: seq<string>, i: nat, k: nat, m: nat)
    requires i <= k < |scan| && IsJavaScriptLikeName(scan[k]) && IsFileAt(ws, scan[k])
    requires NoFolderBefore(ws, scan, i, k) && GeneratedReplica(ws.files[scan[k]].statements, m, removed)
    ensures !HasFunction(RemoveScan(ws, removed, scan, i).files[scan[k]].statements, ws.files[scan[k]].statements[m].name)
    decreases |scan| - i
  {
    if !IsJavaScriptLikeName(scan[i]) || scan[i] !in ws.files {
      ScanSkips(ws, removed, scan, i);
      ScanRemovesReplica(ws, removed, scan, i + 1, k, m);
    } else if scan[i] == scan[k] {
      ScanReachesReplica(ws, removed, scan, i, m);
    } else {
      var next := ScanPassesTo(ws, removed, scan, i, k);
      ScanRemovesReplica(next, removed, scan, i + 1, k, m);
    }
  }

  /** The scan's visit of the file itself removes the replica, and the rest of the scan keeps it removed. */
  lemma ScanReachesReplica(ws: Workspace, removed: string, scan: seq<string>, i: nat, m: nat)
    requires i < |scan| && IsJavaScriptLikeName(scan[i]) && IsFileAt(ws, scan[i])
    requires GeneratedReplica(ws.files[scan[i]].statements, m, removed)
    ensures !HasFunction(RemoveScan(ws, removed, scan, i).files[scan[i]].statements, ws.files[scan[i]].statements[m].name)
  {
    var path := scan[i];
    var snapshot := ws.files[path].statements;
    var next := ScanVisits(ws, removed, scan, i);
    CascadeRemovesReplica(ws, path, removed, snapshot, 0, m);
    ScanAddsNothing(next, removed, scan, i + 1, path, snapshot[m].name);
  }

  /** What the rest of the scan starts from once the visit of `scan[i]` has left `scan[k]` alone. */
  lemma ScanPassesTo(ws: Workspace, removed: string, scan: seq<string>, i: nat, k: nat) returns (next: Workspace)
    requires i < k < |scan| && IsJavaScriptLikeName(scan[i]) && IsFileAt(ws, scan[i]) && scan[i] != scan[k]
    requires IsFileAt(ws, scan[k]) && NoFolderBefore(ws, scan, i, k)
    ensures RemoveScan(ws, removed, scan, i) == RemoveScan(next, removed, scan, i + 1)
    ensures IsFileAt(next, scan[k]) && next.files[scan[k]] == ws.files[scan[k]] && NoFolderBefore(next, scan, i + 1, k)
  {
    next := ScanVisitsOther(ws, removed, scan, i);
  }

  /** Once a file holds no function of a name, the rest of the scan does not bring one back. */
  lemma {:induction false} ScanAddsNothing(ws: Workspace, removed: string, scan: seq<string>, i: nat, path: string, name: string)
    requires IsFileAt(ws, path) && !HasFunction(ws.files[path].statements, name)
    ensures !HasFunction(RemoveScan(ws, removed, scan, i).files[path].statements, name)
    decreases |scan| - i
  {
    if i < |scan| {
      var p := scan[i];
      if !IsJavaScriptLikeName(p) || p !in ws.files {
        ScanSkips(ws, removed, scan, i);
        ScanAddsNothing(ws, removed, scan, i + 1, path, name);
      } else if ws.files[p].File? {
        var next := ScanVisits(ws, removed, scan, i);
        if p == path {
          RemovalAddsNothing(ws, path, removed, ws.files[p].statements, 0, name);
        }
        ScanAddsNothing(next, removed, scan, i + 1, path, name);
      } else {
        ScanEnds(ws, removed, scan, i);
      }
    }
  }

  /**
   * A container with a JavaScript-like name ends the scan: every resource
   * that is not visited before it keeps its contents.
   */
  lemma ScanStopsAtFolder(ws: Workspace, removed: string, scan: seq<string>, i: nat, j: nat)
    requires i <= j < |scan| && IsJavaScriptLikeName(scan[j]) && scan[j] in ws.files && ws.files[scan[j]].Folder?
    ensures forall p :: p in ws.files && p !in scan[i..j] ==> RemoveScan(ws, removed, scan, i).files[p] == ws.files[p]
  {
    forall p | p in ws.files && p !in scan[i..j]
      ensures RemoveScan(ws, removed, scan, i).files[p] == ws.files[p]
    {
      ScanKeepsOutside(ws, removed, scan, i, j, p);
    }
  }

  /** ScanStopsAtFolder for one resource `p` the scan does not reach. */
  lemma {:induction false} ScanKeepsOutside(ws: Workspace, removed: string, scan: seq<string>, i: nat, j: nat, p: string)
    requires i <= j < |scan| && IsJavaScriptLikeName(scan[j]) && scan[j] in ws.files && ws.files[scan[j]].Folder?
    requires p in ws.files && p !in scan[i..j]
    ensures RemoveScan(ws, removed, scan, i).files[p] == ws.files[p]
    decreases j - i
  {
    assert i < j ==> scan[i..j] == [scan[i]] + scan[i + 1..j];
    if i == j {
      ScanEnds(ws, removed, scan, i);
    } else if !IsJavaScriptLikeName(scan[i]) || scan[i] !in ws.files {
      ScanSkips(ws, removed, scan, i);
      ScanKeepsOutside(ws, removed, scan, i + 1, j, p);
    } else if ws.files[scan[i]].File? {
      var next := ScanPassesBy(ws, removed, scan, i, j, p);
      ScanKeepsOutside(next, removed, scan, i + 1, j, p);
    } else {
      ScanEnds(ws, removed, scan, i);
    }
  }

  /** The visit of `scan[i]` leaves `p` and the container at `scan[j]` alone. */
  lemma ScanPassesBy(ws: Workspace, removed: string, scan: seq<string>, i: nat, j: nat, p: string) returns (next: Workspace)
    requires i < j < |scan| && IsJavaScriptLikeName(scan[i]) && IsFileAt(ws, scan[i])
    requires scan[j] in ws.files && ws.files[scan[j]].Folder? && p in ws.files && p != scan[i]
    ensures RemoveScan(ws, removed, scan, i) == RemoveScan(next, removed, scan, i + 1)
    ensures p in next.files && next.files[p] == ws.files[p] && scan[j] in next.files && next.files[scan[j]].Folder?
  {
    next := ScanVisitsOther(ws, removed, scan, i);
  }

  /** The resources of the workspace, each visited once, are what the scan visits. */
  predicate ScansWorkspace(ws: Workspace, scan: seq<string>)
  {
    && (forall p :: p in ws.files ==> p in scan)
    && (forall k :: 0 <= k < |scan| ==> scan[k] in ws.files)
    && forall a, b :: 0 <= a < b < |scan| ==> scan[a] != scan[b]
  }

  /**
   * processRemovedResource over the whole workspace, when no container has
   * a JavaScript-like name: every replica of a function generated from the
   * removed path is gone from every JavaScript file that held at most one
   * function of its name.
   */
  lemma WorkspaceScanRemovesReplicas(ws: Workspace, removed: string, scan: seq<string>, path: string, m: nat)
    requires ScansWorkspace(ws, scan)
    requires forall p :: p in ws.files && IsJavaScriptLikeName(p) ==> ws.files[p].File?
    requires IsJavaScriptLikeName(path) && IsFileAt(ws, path) && GeneratedReplica(ws.files[path].statements, m, removed)
    ensures !HasFunction(RemoveScan(ws, removed, scan, 0).files[path].statements, ws.files[path].statements[m].name)
  {
    var k :| 0 <= k < |scan| && scan[k] == path;
    ScanRemovesReplica(ws, removed, scan, 0, k, m);
  }

  lemma {:induction false} RemoveKeepsAtMostOne(stmts: seq<Statement>, other: string, name: string)
    requires AtMostOneNamed(stmts, name)
    ensures AtMostOneNamed(RemoveFunction(stmts, other), name)
    ensures !HasFunction(stmts, name) ==> !HasFunction(RemoveFunction(stmts, other), name)
  {
    var r := RemoveFunction(stmts, other);
    match FindFunction(stmts, other)
    case None =>
    case Some(i) =>
      forall a, b | 0 <= a < b < |r| && IsFunctionNamed(r[a], name) ensures !IsFunctionNamed(r[b], name) {
        var a' := if a < i then a else a + 1;
        var b' := if b < i then b else b + 1;
        assert r[a] == stmts[a'] && r[b] == stmts[b'];
      }
      if !HasFunction(stmts, name) {
        forall a | 0 <= a < |r| ensures !IsFunctionNamed(r[a], name) {
          assert r[a] == stmts[if a < i then a else a + 1];
        }
      }
  }

  lemma RemoveOnlyOne(stmts: seq<Statement>, name: string)
    requires AtMostOneNamed(stmts, name)
    ensures !HasFunction(RemoveFunction(stmts, name), name)
  {
    var r := RemoveFunction(stmts, name);
    match FindFunction(stmts, name)
    case None =>
    case Some(i) =>
      forall a | 0 <= a < |r| ensures !IsFunctionNamed(r[a], name) {
        assert r[a] == stmts[if a < i then a else a + 1];
      }
  }

  /** Once a file holds no function of a name, the removal loop does not bring one back. */
  lemma {:induction false} RemovalAddsNothing(ws: Workspace, path: string, removed: string, snapshot: seq<Statement>, i: nat, name: string)
    requires IsFileAt(ws, path) && !HasFunction(ws.files[path].statements, name)
    ensures !HasFunction(RemoveInFile(ws, path, removed, snapshot, i).files[path].statements, name)
    decreases |snapshot| - i
  {
    if i < |snapshot| {
      var stmts := ws.files[path].statements;
      var next := RemoveStep(ws, path, removed, snapshot[i]);
      if next != ws {
        RemoveKeepsAtMostOne(stmts, snapshot[i].name, name);
      }
      RemovalAddsNothing(next, path, removed, snapshot, i + 1, name);
    }
  }

  /**
   * The cascade reaches a replica: if the k-th function of the file's
   * snapshot is generated from the removed path and the file holds at most
   * one function of its name, none is left after the loop.
   */
  lemma {:induction false} CascadeRemovesReplica(ws: Workspace, path: string, removed: string, snapshot: seq<Statement>, i: nat, k: nat)
    requires IsFileAt(ws, path) && i <= k < |snapshot|
    requires snapshot[k].Function? && snapshot[k].doc.Some? && IsGenerated(snapshot[k].doc.value.text, removed)
    requires AtMostOneNamed(ws.files[path].statements, snapshot[k].name)
    ensures !HasFunction(RemoveInFile(ws, path, removed, snapshot, i).files[path].statements, snapshot[k].name)
    decreases |snapshot| - i
  {
    var next := RemoveStep(ws, path, removed, snapshot[i]);
    if i == k {
      StepRemovesReplica(ws, path, removed, snapshot[k]);
      RemovalAddsNothing(next, path, removed, snapshot, i + 1, snapshot[k].name);
    } else {
      StepKeepsAtMostOne(ws, path, removed, snapshot[i], snapshot[k].name);
      CascadeRemovesReplica(next, path, removed, snapshot, i + 1, k);
    }
  }

  /** One turn of the removal loop on a function generated from the removed path removes its only namesake. */
  lemma StepRemovesReplica(ws: Workspace, path: string, removed: string, s: Statement)
    requires IsFileAt(ws, path)
    requires s.Function? && s.doc.Some? && IsGenerated(s.doc.value.text, removed)
    requires AtMostOneNamed(ws.files[path].statements, s.name)
    ensures !HasFunction(RemoveStep(ws, path, removed, s).files[path].statements, s.name)
  {
    RemoveOnlyOne(ws.files[path].statements, s.name);
  }

  /** One turn of the removal loop keeps a file free of duplicate functions of any name. */
  lemma StepKeepsAtMostOne(ws: Workspace, path: string, removed: string, s: Statement, name: string)
    requires IsFileAt(ws, path) && AtMostOneNamed(ws.files[path].statements, name)
    ensures AtMostOneNamed(RemoveStep(ws, path, removed, s).files[path].statements, name)
  {
    if RemoveStep(ws, path, removed, s) != ws {
      RemoveKeepsAtMostOne(ws.files[path].statements, s.name, name);
    }
  }

  /**
   * Copy, then remove the source: a function copied from `source` into a
   * file that held at most one function of its name is gone again after the
   * removal loop for `source` runs over that file.
   */
  lemma ReplicaRemovedWithSource(ws: Workspace, path: string, decl: Statement, source: string, k: nat)
    requires IsFileAt(ws, path)
    requires decl.Function? && decl.doc.Some?
    requires k < |decl.doc.value.tags| && decl.doc.value.tags[k].name == CopyToTag
    requires forall j :: 0 <= j < k ==> !IsSourceTag(decl.doc.value.tags[j])
    requires AtMostOneNamed(ws.files[path].statements, decl.name)
    ensures var copied := CopyInto(ws.files[path].statements, decl, source);
      var after := ws.(files := ws.files[path := File(copied)]);
      !HasFunction(RemoveInFile(after, path, source, copied, 0).files[path].statements, decl.name)
  {
    var copied := CopyInto(ws.files[path].statements, decl, source);
    var after := ws.(files := ws.files[path := File(copied)]);
    CopyLeavesOne(ws.files[path].statements, decl, source);
    CopyRecordsSource(decl, source, k);
    CascadeRemovesReplica(after, path, source, copied, 0, |copied| - 1);
  }

  // ----------------------------------------------------------------------
  // The delta visitor and build

  datatype DeltaKind = Added | Removed | Changed | AddedPhantom | RemovedPhantom

  /** One node of a resource delta, in the order the host visits them. */
  datatype DeltaNode = DeltaNode(path: string, kind: DeltaKind)

  datatype BuildKind = FullBuild | AutoBuild | IncrementalBuild

  /** What escapes build: a CoreException carrying a status, or an IllegalStateException. */
  datatype BuildError = CoreFailure(status: BuilderStatus.Status) | IllegalState(path: string)

  /** The state reached, and the exception that stopped the traversal, if any. */
  datatype Progress = Progress(ws: Workspace, error: Option<BuildError>)

  /** The status DeltaVisitor wraps a failure of process in: ERROR passed as the code. */
  function FailureStatus(path: string): (r: BuilderStatus.Status)
    ensures r.severity == BuilderStatus.INFO && r.code == BuilderStatus.ERROR && r.path == Some(path)
    ensures r.message == FailedToBuild && r.exception == Some(NullPointer)
  {
    BuilderStatus.ErrorAsCodeIsInfo(path, FailedToBuild, NullPointer);
    BuilderStatus.AtPathWithException(BuilderStatus.ERROR, path, FailedToBuild, NullPointer)
  }

  /**
   * DeltaVisitor.visit: ADDED and CHANGED run process, REMOVED runs the
   * removal cascade over `scan`, other kinds do nothing; it asks to go on
   * unless process threw.
   */
  function Visit(ws: Workspace, project: string, scan: seq<string>, node: DeltaNode): (r: Progress)
    ensures node.kind == Added || node.kind == Changed ==>
      r.ws == Process(ws, project, node.path).ws && (r.error.None? <==> Process(ws, project, node.path).ok)
    ensures node.kind == Removed ==> r == Progress(RemoveScan(ws, node.path, scan, 0), None)
    ensures node.kind == AddedPhantom || node.kind == RemovedPhantom ==> r == Progress(ws, None)
    ensures r.error.Some? ==> r.error.value == CoreFailure(FailureStatus(node.path))
  {
    match node.kind
    case Added | Changed =>
      var s := Process(ws, project, node.path);
      Progress(s.ws, if s.ok then None else Some(CoreFailure(FailureStatus(node.path))))
    case Removed =>
      Progress(RemoveScan(ws, node.path, scan, 0), None)
    case _ =>
      Progress(ws, None)
  }

  /** incrementalBuild: the visitor over `delta[i..]`, stopping at the first exception. */
  function IncrementalFrom(ws: Workspace, project: string, scan: seq<string>, delta: seq<DeltaNode>, i: nat): (r: Progress)
    ensures SameShape(ws, r.ws)
    ensures r.error.Some? ==> exists k :: i <= k < |delta| && r.error.value == CoreFailure(FailureStatus(delta[k].path))
    decreases |delta| - i
  {
    if i >= |delta| then Progress(ws, None)
    else
      var v := Visit(ws, project, scan, delta[i]);
      ProcessKeepsResources(ws, project, delta[i].path);
      if v.error.Some? then v else IncrementalFrom(v.ws, project, scan, delta, i + 1)
  }

  /** fullBuild: process on every resource of the project, `resources[i..]`; a failure escapes as IllegalStateException. */
  function FullFrom(ws: Workspace, project: string, resources: seq<string>, i: nat): (r: Progress)
    ensures SameShape(ws, r.ws)
    ensures r.error.Some? ==> exists k :: i <= k < |resources| && r.error.value == IllegalState(resources[k])
    decreases |resources| - i
  {
    if i >= |resources| then Progress(ws, None)
    else
      var s := Process(ws, project, resources[i]);
      ProcessKeepsResources(ws, project, resources[i]);
      if !s.ok then Progress(s.ws, Some(IllegalState(resources[i])))
      else FullFrom(s.ws, project, resources, i + 1)
  }

  /**
   * build: a full build, or an incremental build without a delta, processes
   * every resource; otherwise the delta is visited.
   */
  function Build(ws: Workspace, project: string, kind: BuildKind, delta: Option<seq<DeltaNode>>,
                 resources: seq<string>, scan: seq<string>): (r: Progress)
    ensures kind == FullBuild || delta.None? ==> r == FullFrom(ws, project, resources, 0)
    ensures kind != FullBuild && delta.Some? ==> r == IncrementalFrom(ws, project, scan, delta.value, 0)
  {
    if kind == FullBuild || delta.None? then FullFrom(ws, project, resources, 0)
    else IncrementalFrom(ws, project, scan, delta.value, 0)
  }

  /**
   * What escapes a build: from a full build an IllegalStateException; from
   * an incremental one a CoreException whose status has severity INFO,
   * because the severity constant ERROR was passed as the code.
   */
  lemma BuildFailureKinds(ws: Workspace, project: string, kind: BuildKind, delta: Option<seq<DeltaNode>>,
                          resources: seq<string>, scan: seq<string>)
    ensures var r := Build(ws, project, kind, delta, resources, scan);
      && SameShape(ws, r.ws)
      && (r.error.Some? && (kind == FullBuild || delta.None?) ==> r.error.value.IllegalState?)
      && (r.error.Some? && kind != FullBuild && delta.Some? ==>
            r.error.value.CoreFailure? && r.error.value.status.severity == BuilderStatus.INFO)
  {
    var r := Build(ws, project, kind, delta, resources, scan);
    if r.error.Some? && kind != FullBuild && delta.Some? {
      var k :| 0 <= k < |delta.value| && r.error.value == CoreFailure(FailureStatus(delta.value[k].path));
      BuilderStatus.ErrorAsCodeIsInfo(delta.value[k].path, FailedToBuild, NullPointer);
    }
  }
}
