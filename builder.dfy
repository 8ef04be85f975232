/**
 * JavaScriptBuilder as an object: the builder together with the part of
 * the workspace it changes (file buffers, its problem markers, and which
 * buffers are left unsaved). Every method runs the steps of the Java
 * method in place and is proved to end in the state module Sync computes.
 */
module Builder {
  import opened Wrappers
  import opened JavaStrings
  import opened JsDom
  import opened Annotations
  import Sync

  class JavaScriptBuilder {
    /** The full path of the project the builder is attached to. */
    const project: string
    var files: map<string, Resource>
    var markers: seq<Sync.Marker>
    var unsaved: set<string>

    function State(): Sync.Workspace
      reads this
    {
      Sync.Workspace(files, markers, unsaved)
    }

    constructor(project: string, ws: Sync.Workspace)
      ensures this.project == project && State() == ws
    {
      this.project := project;
      files := ws.files;
      markers := ws.markers;
      unsaved := ws.unsaved;
    }

    /** addMarker: creates a marker on `file`; a line of -1 is recorded as line 1. */
    method AddMarker(file: string, message: string, lineNumber: int, severity: int)
      modifies this
      ensures State() == old(State()).(markers := Sync.AddMarker(old(markers), file, message, lineNumber, severity))
    {
      var line := lineNumber;
      if line == -1 {
        line := 1;
      }
      markers := markers + [Sync.Marker(file, message, line, severity)];
    }

    /** deleteMarkers: removes the builder's markers on `file`, and no others. */
    method DeleteMarkers(file: string)
      modifies this
      ensures State() == old(State()).(markers := Sync.DeleteMarkers(old(markers), file))
    {
      var kept := [];
      var i := 0;
      while i < |markers|
        invariant 0 <= i <= |markers|
        invariant kept + Sync.DeleteMarkers(markers[i..], file) == Sync.DeleteMarkers(markers, file)
      {
        assert markers[i..][1..] == markers[i + 1..];
        if markers[i].file != file {
          kept := kept + [markers[i]];
        }
        i := i + 1;
      }
      assert markers[i..] == [];
      markers := kept;
    }

    /**
     * replaceCopyTo: in the copy's tag list, every "@copyTo" tag is renamed
     * "@generatedFrom" and its fragments replaced by the source path.
     */
    method ReplaceCopyTo(tags: array<Tag>, source: string)
      modifies tags
      ensures tags[..] == RewriteTags(old(tags[..]), source)
    {
      var i := 0;
      while i < tags.Length
        invariant 0 <= i <= tags.Length
        invariant forall k :: 0 <= k < i ==> tags[k] == RewriteTag(old(tags[k]), source)
        invariant forall k :: i <= k < tags.Length ==> tags[k] == old(tags[k])
      {
        if tags[i].name == CopyToTag {
          tags[i] := Tag(GeneratedFromTag, [source]);
        }
        i := i + 1;
      }
    }

    /** The copy of the source declaration with its tags rewritten by replaceCopyTo. */
    method NewCopy(decl: Statement, source: string) returns (copy: Statement)
      requires decl.Function? && decl.doc.Some?
      ensures copy == Sync.CopyOf(decl, source)
    {
      var doc := decl.doc.value;
      var tags := new Tag[|doc.tags|](k requires 0 <= k < |doc.tags| => doc.tags[k]);
      assert tags[..] == doc.tags;
      ReplaceCopyTo(tags, source);
      copy := Function(decl.name, Some(Doc(RenderDoc(tags[..]), tags[..], doc.end)), decl.body);
    }

    /**
     * The body of process's destination loop: when the fragment names a
     * file of the workspace, its first function of the same name is
     * removed, the copy appended, and the buffer saved.
     */
    method CopyToDestination(source: string, decl: Statement, fragment: string)
      requires decl.Function? && decl.doc.Some?
      modifies this
      ensures State() == Sync.CopyToDestination(old(State()), project, source, decl, fragment)
    {
      var dest := project + "/" + Trim(fragment);
      if dest in files && files[dest].File? {
        var statements := files[dest].statements;
        var found := FindFunction(statements, decl.name);
        if found.Some? {
          statements := statements[..found.value] + statements[found.value + 1..];
        }
        var copy := NewCopy(decl, source);
        files := files[dest := File(statements + [copy])];
        unsaved := unsaved - {dest};
      }
    }

    /**
     * One turn of process's loop, for the i-th statement of the file as it
     * was when processing began. Returns false where the Java code throws.
     */
    method ProcessDeclaration(file: string, snapshot: seq<Statement>, i: nat) returns (ok: bool)
      requires i < |snapshot|
      modifies this
      ensures Sync.ProcessDeclaration(old(State()), project, file, snapshot, i) == Sync.Step(State(), ok)
    {
      var fn := snapshot[i];
      if !fn.Function? || fn.doc.None? {
        return true;
      }
      var found := FindFunction(snapshot, fn.name);
      var decl := snapshot[found.value];
      if decl.doc.None? {
        return false;
      }
      var destFiles := GetCopyTo(fn.doc.value.text);
      if destFiles.Some? {
        var fragments := destFiles.value;
        ghost var start := State();
        var j := 0;
        while j < |fragments|
          invariant 0 <= j <= |fragments|
          invariant Sync.CopyToAll(State(), project, file, decl, fragments, j) == Sync.CopyToAll(start, project, file, decl, fragments, 0)
        {
          CopyToDestination(file, decl, fragments[j]);
          j := j + 1;
        }
      }
      var generatedFrom := GetGeneratedFrom(decl.doc.value.tags);
      if generatedFrom.Some? {
        var value := generatedFrom.value;
        var target := Trim(value);
        var line := fn.doc.value.end;
        if target !in files {
          AddMarker(file, Sync.CannotFindResource + value, line, Sync.SeverityError);
        } else if files[target].File? && FindFunction(files[target].statements, fn.name).None? {
          AddMarker(file, Sync.CannotFindFunction + value, line, Sync.SeverityError);
        }
      }
      return true;
    }

    /**
     * process: for a file with a JavaScript-like name, deletes its markers,
     * then handles each of its functions in order; false where the Java
     * code throws, with the changes made up to that point kept.
     */
    method Process(path: string) returns (ok: bool)
      modifies this
      ensures Sync.Process(old(State()), project, path) == Sync.Step(State(), ok)
    {
      if !(path in files && files[path].File? && IsJavaScriptLikeName(path)) {
        return true;
      }
      DeleteMarkers(path);
      var snapshot := files[path].statements;
      ghost var start := State();
      var i := 0;
      while i < |snapshot|
        invariant 0 <= i <= |snapshot|
        invariant Sync.ProcessFrom(State(), project, path, snapshot, i) == Sync.ProcessFrom(start, project, path, snapshot, 0)
      {
        ok := ProcessDeclaration(path, snapshot, i);
        if !ok {
          return;
        }
        i := i + 1;
      }
      return true;
    }

    /**
     * The removal visitor's loop over the functions of one file: each
     * function generated from `removed` has its first namesake removed
     * from the file's buffer, which is set but not saved.
     */
    method RemoveGeneratedFunctions(path: string, removed: string)
      requires Sync.IsFileAt(State(), path)
      modifies this
      ensures State() == Sync.RemoveInFile(old(State()), path, removed, old(files[path].statements), 0)
    {
      var snapshot := files[path].statements;
      ghost var start := State();
      var j := 0;
      while j < |snapshot|
        invariant 0 <= j <= |snapshot|
        invariant Sync.IsFileAt(State(), path)
        invariant Sync.RemoveInFile(State(), path, removed, snapshot, j) == Sync.RemoveInFile(start, path, removed, snapshot, 0)
      {
        RemoveGeneratedFunction(path, removed, snapshot[j]);
        j := j + 1;
      }
    }

    /** One turn of the removal loop, for the function `fn` of the file's snapshot. */
    method RemoveGeneratedFunction(path: string, removed: string, fn: Statement)
      requires Sync.IsFileAt(State(), path)
      modifies this
      ensures State() == Sync.RemoveStep(old(State()), path, removed, fn)
    {
      if fn.Function? && fn.doc.Some? && IsGenerated(fn.doc.value.text, removed) {
        var statements := files[path].statements;
        var found := FindFunction(statements, fn.name);
        if found.Some? {
          statements := statements[..found.value] + statements[found.value + 1..];
        }
        files := files[path := File(statements)];
        unsaved := unsaved + {path};
      }
    }

    /**
     * processRemovedResource: visits `scan`, the resources of every
     * JavaScript project in visiting order; a container with a
     * JavaScript-like name throws and ends the visit.
     */
    method ProcessRemovedResource(removed: string, scan: seq<string>)
      modifies this
      ensures State() == Sync.RemoveScan(old(State()), removed, scan, 0)
    {
      ghost var start := State();
      var i := 0;
      while i < |scan|
        invariant 0 <= i <= |scan|
        invariant Sync.RemoveScan(State(), removed, scan, i) == Sync.RemoveScan(start, removed, scan, 0)
      {
        var p := scan[i];
        if IsJavaScriptLikeName(p) && p in files {
          if files[p].Folder? {
            return;
          }
          RemoveGeneratedFunctions(p, removed);
        }
        i := i + 1;
      }
    }

    /** DeltaVisitor.visit; the result is the exception that escapes, if any. */
    method Visit(node: Sync.DeltaNode, scan: seq<string>) returns (error: Option<Sync.BuildError>)
      modifies this
      ensures Sync.Visit(old(State()), project, scan, node) == Sync.Progress(State(), error)
    {
      match node.kind
      case Added | Changed =>
        var ok := Process(node.path);
        error := if ok then None else Some(Sync.CoreFailure(Sync.FailureStatus(node.path)));
      case Removed =>
        ProcessRemovedResource(node.path, scan);
        error := None;
      case _ =>
        error := None;
    }

    /** incrementalBuild: visits the delta's nodes in order until one throws. */
    method IncrementalBuild(delta: seq<Sync.DeltaNode>, scan: seq<string>) returns (error: Option<Sync.BuildError>)
      modifies this
      ensures Sync.IncrementalFrom(old(State()), project, scan, delta, 0) == Sync.Progress(State(), error)
    {
      ghost var start := State();
      var i := 0;
      while i < |delta|
        invariant 0 <= i <= |delta|
        invariant Sync.IncrementalFrom(State(), project, scan, delta, i) == Sync.IncrementalFrom(start, project, scan, delta, 0)
      {
        error := Visit(delta[i], scan);
        if error.Some? {
          return;
        }
        i := i + 1;
      }
      return None;
    }

    /**
     * fullBuild: processes every resource of the project in visiting order;
     * a failure escapes as an IllegalStateException.
     */
    method FullBuild(resources: seq<string>) returns (error: Option<Sync.BuildError>)
      modifies this
      ensures Sync.FullFrom(old(State()), project, resources, 0) == Sync.Progress(State(), error)
    {
      ghost var start := State();
      var i := 0;
      while i < |resources|
        invariant 0 <= i <= |resources|
        invariant Sync.FullFrom(State(), project, resources, i) == Sync.FullFrom(start, project, resources, 0)
      {
        var ok := Process(resources[i]);
        if !ok {
          return Some(Sync.IllegalState(resources[i]));
        }
        i := i + 1;
      }
      return None;
    }

    /** build: a full build, or an incremental build when the host has a delta. */
    method Build(kind: Sync.BuildKind, delta: Option<seq<Sync.DeltaNode>>, resources: seq<string>, scan: seq<string>)
      returns (error: Option<Sync.BuildError>)
      modifies this
      ensures Sync.Build(old(State()), project, kind, delta, resources, scan) == Sync.Progress(State(), error)
    {
      if kind == Sync.FullBuild {
        error := FullBuild(resources);
      } else if delta.None? {
        error := FullBuild(resources);
      } else {
        error := IncrementalBuild(delta.value, scan);
      }
    }
  }
}
