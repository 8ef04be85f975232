# JavaScript function-copying builder and scp helpers, modelled in Dafny

This project models the core of an Eclipse plug-in. The plug-in holds a builder that keeps JavaScript functions in step across files, and a small scp upload client.

- **The builder** (`JavaScriptBuilder`). A function whose documentation comment carries `@copyTo a.js,b.js` is copied into each named file of the project. Any function of the same name already there is replaced. In the copy, the `@copyTo` tag becomes `@generatedFrom <source path>`. Later builds check that link and put error markers on functions whose source has gone. Deleting a source file removes the functions generated from it (the removal cascade).
- **The builder's status** (`BuilderStatus`): severity derived from a code, constructors, path and text form.
- **The scp client**: how the target URI `user[:password]@host:path` is split, validation of a remote target, and the source and target fields of the Ant `Scp` task.
- **The acknowledgement exchange** with the remote side (`AbstractSshMessage`).

Files:

- `wrappers.dfy`: `Option`, `Result` and `Outcome`.
- `java_strings.dfy`: the Java string operations the code relies on. These are `indexOf`, `lastIndexOf`, `contains`, `trim` (drops characters `<= ' '` at both ends), `split(",")` (trailing empty pieces dropped) and `String.valueOf(int)`, each with its properties: a split joins back to a prefix of its input, and decimal text parses back to its number.
- `js_dom.dfy`: the part of a parsed JavaScript unit the builder looks at. A unit is a list of top-level statements. A function statement has a name, an optional documentation comment and a body. A comment is kept both as raw buffer text and as parsed tags, each tag with its name and fragments. The file also holds `findFunction` and the removal of a statement from the list.
- `annotations.dfy`: reading `@copyTo` from raw text, `isGenerated`, `getGeneratedFrom` on the tags, and the tag rewrite of `replaceCopyTo`.
- `sync.dfy`: the builder's effect on a workspace value, as functions. The workspace holds the files by path, the marker list, and the buffers set but not saved. The module covers `process`, the removal cascade, the delta visitor and `build`, with the lemmas about them.
- `builder.dfy`: `class JavaScriptBuilder`. Its fields are the workspace the builder changes. Its methods run the Java loops in place, and each is proved to end in the state the matching `sync.dfy` function gives. `replaceCopyTo` rewrites an array of tags in place.
- `builder_status.dfy`: `getSeverity` with Java's `int` `%`, `/` and `<<`; the constructors, `getPath`, `getTypeName` and `toString`.
- `scp.dfy`: `parseUri` as a function, with round trips back to the URI, and `class Scp`, whose `ParseUri` runs the source's `@`-search loop.
- `ssh_message.dfy`: `waitForAck` over the bytes the input stream delivers, and `sendAck` on an output stream object.

## Model

| member | source | states |
|---|---|---|
| `Annotations.GetCopyTo` | src/org/selman/js/builder/JavaScriptBuilder.java:445-461 | the result is null exactly when the text has no `@copyTo` |
| `Annotations.CopyToFragments` | src/org/selman/js/builder/JavaScriptBuilder.java:447-457 | for the first `@copyTo` and the next line end: the fragments joined by commas are a prefix of the text between, only commas follow, and no fragment holds a comma or a newline |
| `Annotations.LastFragmentNotEmpty` | src/org/selman/js/builder/JavaScriptBuilder.java:451-457 | trailing empty pieces are dropped: when the text after `@copyTo` holds a comma, the last fragment, if any, is not empty |
| `Annotations.OneLineCopyTo` | src/org/selman/js/builder/JavaScriptBuilder.java:451-457 | fragments are not trimmed: a one-line comment keeps ` b.js */` as its fragment |
| `Annotations.GeneratedPrefixMatch` | src/org/selman/js/builder/JavaScriptBuilder.java:213-215 | `isGenerated` is a substring test: a comment generated from `/p/a.jsx` also counts as generated from `/p/a.js` |
| `Annotations.GeneratedPrefixClosed` | src/org/selman/js/builder/JavaScriptBuilder.java:213-215 | a comment generated from `path + more` counts as generated from `path` too, for any `more` |
| `Annotations.GetGeneratedFrom` | src/org/selman/js/builder/JavaScriptBuilder.java:222-238 | null exactly when no `@generatedFrom` tag has a fragment; otherwise the first fragment of the first such tag, other tags ignored |
| `Annotations.RewriteTags` | src/org/selman/js/builder/JavaScriptBuilder.java:343-359 | after the rewrite no tag is `@copyTo`; each former `@copyTo` tag is `@generatedFrom` with the source path as its only fragment; other tags, and the number and order of tags, are unchanged |
| `Annotations.RewriteTagsIdempotent` | src/org/selman/js/builder/JavaScriptBuilder.java:347-358 | rewriting twice gives the same tags as rewriting once |
| `Annotations.RewriteRecordsSource` | src/org/selman/js/builder/JavaScriptBuilder.java:350-355 | if a `@copyTo` tag comes before any usable `@generatedFrom`, `getGeneratedFrom` of the rewritten tags is the source path |
| `Annotations.RenderedSourceIsGenerated` | src/org/selman/js/builder/JavaScriptBuilder.java:213-215 | the text rendered from tags holding `@generatedFrom` + source is found by `isGenerated` for that source |
| `JsDom.FindFunction` | src/org/selman/js/builder/JavaScriptBuilder.java:367-378 | the first function statement with exactly that name; other statements are skipped; none exactly when there is no such function |
| `JsDom.RemoveFunction` | src/org/selman/js/builder/JavaScriptBuilder.java:297-301 | takes out the statement `findFunction` found and keeps all the others in order; without a match the list is unchanged |
| `Sync.AddMarker` | src/org/selman/js/builder/JavaScriptBuilder.java:134-146 | appends one marker with the file, message and severity given; a line of -1 is recorded as 1, any other line as given |
| `Sync.DeleteMarkers` | src/org/selman/js/builder/JavaScriptBuilder.java:467-472 | keeps exactly the markers of other files |
| `Sync.CopyOf` | src/org/selman/js/builder/JavaScriptBuilder.java:303-304 | the copy has the source declaration's name and body, and its tags rewritten by `replaceCopyTo` |
| `Sync.CopyInto` | src/org/selman/js/builder/JavaScriptBuilder.java:296-305 | the copy is the last statement; statements before the removed namesake stay, those after it move up one; the length is unchanged with a namesake and one more without |
| `Sync.CopyLeavesOne` | src/org/selman/js/builder/JavaScriptBuilder.java:296-305 | after copying into a file with at most one namesake, there is exactly one, and it is the copy, at the end |
| `Sync.CopyIdempotent` | src/org/selman/js/builder/JavaScriptBuilder.java:296-305 | copying again with nothing changed in between leaves a destination holding at most one namesake as it is |
| `Sync.CopyRecordsSource` | src/org/selman/js/builder/JavaScriptBuilder.java:303-305 | the copy's comment records its source both for `isGenerated` (raw text) and for `getGeneratedFrom` (tags) |
| `Sync.DestinationPath` | src/org/selman/js/builder/JavaScriptBuilder.java:289 | the destination is the project path, "/" and the trimmed fragment, in that order |
| `Sync.SameDestination` | src/org/selman/js/builder/JavaScriptBuilder.java:289 | two fragments name the same destination exactly when they are equal once trimmed |
| `Sync.CopyToDestination` | src/org/selman/js/builder/JavaScriptBuilder.java:287-311 | a destination path (project path + trimmed fragment) that is not a file is skipped, with no marker; a file gets the copy and is saved; no marker and no resource changes |
| `Sync.CopyToAll` | src/org/selman/js/builder/JavaScriptBuilder.java:286-312 | copying to every destination keeps the markers and the set and kind of resources, and only ever saves buffers, never leaves one newly unsaved |
| `Sync.CopyStepKeepsLast` | src/org/selman/js/builder/JavaScriptBuilder.java:290-305 | one copy step leaves the copy last in its own destination and in any file that already ended with it |
| `Sync.CopyStaysLast` | src/org/selman/js/builder/JavaScriptBuilder.java:286-312 | a destination that already ends with the copy still does after the remaining copies |
| `Sync.FanOut` | src/org/selman/js/builder/JavaScriptBuilder.java:285-312 | every fragment naming an existing file ends up with the copy as that file's last statement |
| `Sync.CopyToAllKeeps` | src/org/selman/js/builder/JavaScriptBuilder.java:286-312 | the copies of one declaration keep, in every file, any statement that is not a function of its name, and the copy itself |
| `Sync.CheckProvenance` | src/org/selman/js/builder/JavaScriptBuilder.java:315-329 | a marker is added exactly when the link is broken: "Cannot find resource " + value when the trimmed target does not exist, "Cannot find source function " + value when it is a file without the function, severity error, at the given line (1 for -1); a target that is not a file gives none |
| `Sync.CheckProvenanceAppends` | src/org/selman/js/builder/JavaScriptBuilder.java:315-328 | for a broken link the markers become the old ones followed by exactly that one marker on the file |
| `Sync.ProcessDeclaration` | src/org/selman/js/builder/JavaScriptBuilder.java:277-331 | one function's turn ends normally exactly when its first namesake in the file has a comment; otherwise it throws with nothing changed; only error markers on the processed file are added |
| `Sync.FirstOf` | src/org/selman/js/builder/JavaScriptBuilder.java:282 | the declaration `findFunction` returns for a documented function: the first statement of its name, which has a comment |
| `Sync.ProcessDeclarationReplicates` | src/org/selman/js/builder/JavaScriptBuilder.java:277-312 | a documented function whose first namesake is documented ends its turn normally, leaving the copy of that namesake last in every existing destination its comment names |
| `Sync.ProcessDeclarationKeeps` | src/org/selman/js/builder/JavaScriptBuilder.java:277-331 | a later function's turn keeps the copy of a first declaration wherever it is |
| `Sync.ProcessDeclarationFlags` | src/org/selman/js/builder/JavaScriptBuilder.java:277-331 | in the turn of a documented function whose first declaration carries `@generatedFrom v`, the turn ends normally and adds a marker exactly when the link is broken; that marker is the whole marker: the file, the message for a missing resource or a missing function, the comment's end as its line, severity error; a target that is a container adds none |
| `Sync.HandleFunction` | src/org/selman/js/builder/JavaScriptBuilder.java:284-329 | with a `@copyTo` in the comment, the files are those the copy to every fragment gives, and without one they are unchanged; the markers are unchanged without a `@generatedFrom` on the declaration, and otherwise are what the link check gives on the files after the copies, at the end of the function's comment; every resource keeps its kind |
| `Sync.HandleFunctionReplicates` | src/org/selman/js/builder/JavaScriptBuilder.java:284-312 | every existing file a `@copyTo` fragment names ends with the copy after the function's turn |
| `Sync.ProcessFrom` | src/org/selman/js/builder/JavaScriptBuilder.java:277-331 | the loop ends normally exactly when every remaining documented function's first namesake is documented; resources keep their kind |
| `Sync.ProcessFromKeeps` | src/org/selman/js/builder/JavaScriptBuilder.java:277-331 | the rest of the loop keeps the copy of a first declaration wherever it is, whether or not a later turn throws |
| `Sync.ProcessFromReplicates` | src/org/selman/js/builder/JavaScriptBuilder.java:277-331 | when the turns before the m-th end normally, the m-th function's copy is in every existing destination its comment names once the loop is over |
| `Sync.Process` | src/org/selman/js/builder/JavaScriptBuilder.java:270-271 | a resource that is not a file with a JavaScript-like name is left alone |
| `Sync.ProcessReplicates` | src/org/selman/js/builder/JavaScriptBuilder.java:270-333 | after `process` of a JavaScript file, each existing destination named by a `@copyTo` of a function reached without an exception holds the copy of that function's first declaration |
| `Sync.ProcessFlagsMissingSource` | src/org/selman/js/builder/JavaScriptBuilder.java:270-333 | when the turns up to the m-th function end normally and its first declaration's `@generatedFrom` names no resource, the markers after `process` hold "Cannot find resource " + the value on the file, at the end of that function's comment, severity error |
| `Sync.ProcessMarkers` | src/org/selman/js/builder/JavaScriptBuilder.java:273-329 | after `process` the markers of other files are exactly the old ones, in order, followed only by new error markers on the processed file |
| `Sync.ProcessKeepsResources` | src/org/selman/js/builder/JavaScriptBuilder.java:270-333 | `process` creates and deletes no resource and changes no resource's kind |
| `Sync.ProcessFails` | src/org/selman/js/builder/JavaScriptBuilder.java:280-315 | `process` throws exactly when some documented function's first namesake has no comment |
| `Sync.UndocumentedTwinFails` | src/org/selman/js/builder/JavaScriptBuilder.java:280-304 | an undocumented declaration followed by a documented one of the same name makes `process` throw |
| `Sync.RemoveStep` | src/org/selman/js/builder/JavaScriptBuilder.java:171-193 | a documented function generated from the removed path removes its first namesake from the file's current statements and leaves the buffer unsaved; any other statement changes nothing; the file never grows |
| `Sync.RemoveInFile` | src/org/selman/js/builder/JavaScriptBuilder.java:167-196 | the loop touches only its own file, keeps it a file, never grows it, keeps markers and never saves |
| `Sync.RemoveScan` | src/org/selman/js/builder/JavaScriptBuilder.java:155-204 | the removal cascade keeps the markers and every resource's kind, only adds unsaved buffers, and leaves resources without a JavaScript-like name unchanged |
| `Sync.ScanRemovesReplica` | src/org/selman/js/builder/JavaScriptBuilder.java:155-204 | a function generated from the removed path, in a JavaScript file with at most one function of its name, is gone after the scan when no container with a JavaScript-like name comes before the file |
| `Sync.ScanAddsNothing` | src/org/selman/js/builder/JavaScriptBuilder.java:155-204 | the scan never brings back a function of a name a file lacks |
| `Sync.ScanStopsAtFolder` | src/org/selman/js/builder/JavaScriptBuilder.java:167-168 | a container with a JavaScript-like name ends the scan: every resource not visited before it is unchanged |
| `Sync.WorkspaceScanRemovesReplicas` | src/org/selman/js/builder/JavaScriptBuilder.java:155-204 | scanning every resource once, with no container of a JavaScript-like name, removes every such replica from every JavaScript file |
| `Sync.RemoveKeepsAtMostOne` | src/org/selman/js/builder/JavaScriptBuilder.java:180-184 | removing any function keeps "at most one function of a name", and adds no function of a name that was absent |
| `Sync.RemoveOnlyOne` | src/org/selman/js/builder/JavaScriptBuilder.java:180-184 | removing the only function of a name leaves none |
| `Sync.RemovalAddsNothing` | src/org/selman/js/builder/JavaScriptBuilder.java:171-195 | the removal loop never brings back a function of a name the file lacks |
| `Sync.CascadeRemovesReplica` | src/org/selman/js/builder/JavaScriptBuilder.java:171-195 | a function generated from the removed path in a file with at most one of its name is gone after the loop |
| `Sync.ReplicaRemovedWithSource` | src/org/selman/js/builder/JavaScriptBuilder.java:155-204 | copy then remove: a function copied from a source is removed again when that source is removed |
| `Sync.Visit` | src/org/selman/js/builder/JavaScriptBuilder.java:84-108 | ADDED and CHANGED run `process` and turn its failure into a CoreException for the resource; REMOVED runs the cascade and never fails; phantom kinds change nothing |
| `Sync.FailureStatus` | src/org/selman/js/builder/JavaScriptBuilder.java:92 | the status of a failed ADDED or CHANGED node: severity INFO, code ERROR, the resource's path, "Failed to build." and the exception |
| `Sync.IncrementalFrom` | src/org/selman/js/builder/JavaScriptBuilder.java:493-497 | visiting the delta keeps the resources; what escapes is the CoreException of one visited node |
| `Sync.FullFrom` | src/org/selman/js/builder/JavaScriptBuilder.java:115-124 | processing every resource keeps the resources; what escapes is an IllegalStateException for one of them |
| `Sync.Build` | src/org/selman/js/builder/JavaScriptBuilder.java:243-256 | a full build, or a missing delta, processes every resource; otherwise the delta is visited |
| `Sync.BuildFailureKinds` | src/org/selman/js/builder/JavaScriptBuilder.java:92 | a full build fails only with IllegalStateException; an incremental build's CoreException carries severity INFO, because ERROR is passed as a code |
| `Builder.JavaScriptBuilder.AddMarker` | src/org/selman/js/builder/JavaScriptBuilder.java:134-146 | the new marker list is `Sync.AddMarker` of the old one; nothing else changes |
| `Builder.JavaScriptBuilder.DeleteMarkers` | src/org/selman/js/builder/JavaScriptBuilder.java:467-472 | the filtering loop leaves `Sync.DeleteMarkers` of the old markers; nothing else changes |
| `Builder.JavaScriptBuilder.ReplaceCopyTo` | src/org/selman/js/builder/JavaScriptBuilder.java:343-359 | the tag array is rewritten in place to `RewriteTags` of its old contents |
| `Builder.JavaScriptBuilder.NewCopy` | src/org/selman/js/builder/JavaScriptBuilder.java:303-304 | copying the declaration and rewriting its tags gives `Sync.CopyOf` |
| `Builder.JavaScriptBuilder.CopyToDestination` | src/org/selman/js/builder/JavaScriptBuilder.java:287-311 | the new workspace is `Sync.CopyToDestination` of the old one |
| `Builder.JavaScriptBuilder.ProcessDeclaration` | src/org/selman/js/builder/JavaScriptBuilder.java:277-331 | the destination loop and the link check end in `Sync.ProcessDeclaration`'s state and outcome |
| `Builder.JavaScriptBuilder.Process` | src/org/selman/js/builder/JavaScriptBuilder.java:270-333 | ends in `Sync.Process`'s state, and reports failure exactly where the Java method throws |
| `Builder.JavaScriptBuilder.RemoveGeneratedFunctions` | src/org/selman/js/builder/JavaScriptBuilder.java:167-196 | the loop over one file's functions ends in `Sync.RemoveInFile`'s state |
| `Builder.JavaScriptBuilder.RemoveGeneratedFunction` | src/org/selman/js/builder/JavaScriptBuilder.java:172-193 | one turn of the removal loop ends in `Sync.RemoveStep`'s state |
| `Builder.JavaScriptBuilder.ProcessRemovedResource` | src/org/selman/js/builder/JavaScriptBuilder.java:155-204 | ends in `Sync.RemoveScan`'s state, stopping at a container with a JavaScript-like name |
| `Builder.JavaScriptBuilder.Visit` | src/org/selman/js/builder/JavaScriptBuilder.java:84-108 | ends in `Sync.Visit`'s state and exception |
| `Builder.JavaScriptBuilder.IncrementalBuild` | src/org/selman/js/builder/JavaScriptBuilder.java:493-497 | visits the delta until a node throws, ending in `Sync.IncrementalFrom`'s state |
| `Builder.JavaScriptBuilder.FullBuild` | src/org/selman/js/builder/JavaScriptBuilder.java:479-485 | processes the resources until one throws, ending in `Sync.FullFrom`'s state |
| `Builder.JavaScriptBuilder.Build` | src/org/selman/js/builder/JavaScriptBuilder.java:243-256 | ends in `Sync.Build`'s state and exception |
| `BuilderStatus.GetSeverity` | src/org/selman/js/builder/BuilderStatus.java:49-51 | the severity is 0 exactly for code 0 |
| `BuilderStatus.SeverityOfPositiveCode` | src/org/selman/js/builder/BuilderStatus.java:50 | for a positive code, last two digits 0-32 give INFO, 33-65 WARNING, 66-98 ERROR, 99 CANCEL |
| `BuilderStatus.SeverityDependsOnLastDigits` | src/org/selman/js/builder/BuilderStatus.java:50 | positive codes with the same last two digits have the same severity, one of INFO, WARNING, ERROR, CANCEL |
| `BuilderStatus.SeverityOfNegativeCode` | src/org/selman/js/builder/BuilderStatus.java:50 | for a negative code Java's truncating `%` and `/` and its shift masking give 1, -2^31, 2^30 or 2^29 |
| `BuilderStatus.WithSeverity` | src/org/selman/js/builder/BuilderStatus.java:25-28 | every field as given, with the plug-in's identifier |
| `BuilderStatus.OfCode` | src/org/selman/js/builder/BuilderStatus.java:30-32 | severity from the code, no path, no exception |
| `BuilderStatus.AtPath` | src/org/selman/js/builder/BuilderStatus.java:34-36 | severity from the code, the path given, no exception |
| `BuilderStatus.AtPathWithException` | src/org/selman/js/builder/BuilderStatus.java:38-40 | severity from the code, the path and exception given |
| `BuilderStatus.PathAsConstructed` | src/org/selman/js/builder/BuilderStatus.java:45-47 | `getPath` returns the constructor's path, none for the two-argument constructor |
| `BuilderStatus.ErrorAsCodeIsInfo` | src/org/selman/js/builder/JavaScriptBuilder.java:92 | the builder's failure status, built with the severity ERROR as its code, has severity INFO |
| `BuilderStatus.SeverityName` | src/org/selman/js/builder/BuilderStatus.java:54-67 | a severity without a name is shown as decimal text that parses back to it |
| `BuilderStatus.SeverityNameInjective` | src/org/selman/js/builder/BuilderStatus.java:54-67 | different severities get different names |
| `BuilderStatus.TypeName` | src/org/selman/js/builder/BuilderStatus.java:54-67 | "OK", "ERROR", "INFO" and "WARNING" exactly for those severities; any other severity as decimal text that parses back to it |
| `BuilderStatus.ToString` | src/org/selman/js/builder/BuilderStatus.java:70-84 | the text starts with "[type: ", the type name and "]", and ends with a newline |
| `BuilderStatus.ToStringShowsSeverity` | src/org/selman/js/builder/BuilderStatus.java:70-84 | two statuses with the same text have the same severity |
| `BuilderStatus.FailureStatusText` | src/org/selman/js/builder/BuilderStatus.java:70-84 | the text of a status built with ERROR as its code and a path, message and exception: type INFO, the path, the message, the plug-in and the exception, in brackets, ending in a newline |
| `Scp.ChosenAt` | src/org/selman/scp/Scp.java:150-160 | the '@' ending the password is the last '@' before the last ':', or the first '@' when none lies before it |
| `Scp.UserEnd` | src/org/selman/scp/Scp.java:147-166 | the '@' that ends the user part: the chosen one in the password notation, else the first |
| `Scp.LastAtBeforeLastColon` | src/org/selman/scp/Scp.java:154-160 | the loop stops on the '@' that `ChosenAt` describes |
| `Scp.ParseHost` | src/org/selman/scp/Scp.java:170-187 | user name, password and key file are kept; with neither password nor key file it fails with the no-credentials message for that user; with credentials but no ':' after the '@' it fails with "no remote path in " and the URI; it succeeds exactly when there are credentials and such a ':'; on failure the host is unchanged; on success the host holds no ':' and the path is never empty |
| `Scp.ParseHostSucceeds` | src/org/selman/scp/Scp.java:177-187 | with a password or key file known and a ':' after the '@', the host is the text between them and the path the rest, "." when empty |
| `Scp.ParseUriSpec` | src/org/selman/scp/Scp.java:145-188 | no '@' throws "no username was given" with nothing set; otherwise the user name holds neither ':' nor '@'; without password or key file it throws before the host is set; with no ':' after the chosen '@' it throws "no remote path in " and the URI; it succeeds exactly when neither happens; on success the host holds no ':' and the path is not empty |
| `Scp.ParsePassword` | src/org/selman/scp/Scp.java:150-162 | in the password notation the password is the text between the first ':' and the chosen '@' |
| `Scp.PasswordRoundTrip` | src/org/selman/scp/Scp.java:145-188 | user + ":" + password + "@" + host + ":" + path gives the URI back, an empty path being returned as "." |
| `Scp.UserRoundTrip` | src/org/selman/scp/Scp.java:163-188 | without a password: user + "@" + host + ":" + path gives the URI back, and the password is left as it was |
| `Scp.ParseHostKeepsUser` | src/org/selman/scp/Scp.java:170-182 | once a user is found, no later error is the missing-user error |
| `Scp.ValidatedUriHasUser` | src/org/selman/scp/Scp.java:145-168 | a URI that passes validation always yields a user name |
| `Scp.IsRemoteUri` | src/org/selman/scp/Scp.java:190-197 | true exactly when the URI contains '@' |
| `Scp.ValidateRemoteUri` | src/org/selman/scp/Scp.java:73-81 | throws exactly for a URI without '@', with the syntax message naming the attribute and the URI |
| `Scp.Scp.constructor` | src/org/selman/scp/Scp.java:35-36 | a new task has no source, target or credentials |
| `Scp.Scp.SetFile` | src/org/selman/scp/Scp.java:56-58 | sets the source; nothing else changes |
| `Scp.Scp.SetTodir` | src/org/selman/scp/Scp.java:69-71 | sets the target without validation; nothing else changes |
| `Scp.Scp.SetRemoteTofile` | src/org/selman/scp/Scp.java:89-92 | sets the target exactly when it passes `validateRemoteUri`, otherwise fails with its message and changes nothing |
| `Scp.Scp.Init` | src/org/selman/scp/Scp.java:98-102 | source and target become null; credentials are kept |
| `Scp.Scp.ParseUri` | src/org/selman/scp/Scp.java:145-168 | the fields and result end as `ParseUriSpec` says, including the fields set before an exception |
| `Scp.Scp.ParseHostPart` | src/org/selman/scp/Scp.java:170-187 | the credential check, host and path end as `ParseHost` says |
| `Scp.Scp.ParseHostName` | src/org/selman/scp/Scp.java:177-187 | past the credential check, the host field and the returned path end as `ParseHost` says |
| `SshMessage.WaitForAck` | src/org/selman/scp/AbstractSshMessage.java:84-115 | end of stream gives "No response from server" after one read; it returns normally exactly when the first byte is 0, after one read; otherwise the message is the bytes up to the first value <= 0 or '\n', which is consumed too, and the error text depends on the status (1, 2, other) |
| `SshMessage.AckError` | src/org/selman/scp/AbstractSshMessage.java:104-113 | the error text ends with the message; it starts "server indicated an error: " exactly for status 1 and "server indicated a fatal error: " exactly for status 2; any other status gives "unknown response, code " first |
| `SshMessage.MessageEnd` | src/org/selman/scp/AbstractSshMessage.java:98-102 | the first position from which a read gives a value <= 0 or '\n'; every value before it is a message character |
| `SshMessage.Read` | src/org/selman/scp/AbstractSshMessage.java:86 | a read gives a byte value, or -1 exactly past the end of the stream |
| `SshMessage.ReplyMessageEnd` | src/org/selman/scp/AbstractSshMessage.java:96-102 | a reply made of status, message and line feed is read back as that message, whatever follows |
| `SshMessage.AckTextClean` | src/org/selman/scp/AbstractSshMessage.java:99 | the reported message holds no '\n' and no NUL |
| `SshMessage.SendAck` | src/org/selman/scp/AbstractSshMessage.java:70-75 | writes exactly the byte 0, then flushes everything written |

## Left out

- Eclipse parsing and rewriting (the AST parser, `ASTNode.copySubtree`, the text-edit rewrite and the buffers). A unit is modelled as its list of statements, copying as a value copy, and saving as a map update plus the set of unsaved buffers. The rewriter's text layout is not modelled. The raw text of a copied comment is the model's own rendering of its tags (`Annotations.RenderDoc`). Description text in a comment is not modelled.
- `process` re-parses the source buffer for every function it looks at. The model reads the processed file once, when processing starts. The two differ only when a file is its own `@copyTo` destination.
- The removal cascade reads each comment at the offsets of the unit it started from, after earlier removals may have shifted the buffer. The model reads each comment from that starting snapshot.
- Workspace lookups are map lookups, and paths are plain strings. There is no `IPath` normalisation: a destination is the project path, "/" and the trimmed fragment.
- `refUnit.findFunctions` (whether the link target still has the function) is abstracted to "the target file has a function of that name".
- `JavaScriptCore.isJavaScriptLikeFileName` is modelled for the default content type only: the name ends in ".js".
- A destination is not checked for a JavaScript-like name, as in the source. The model can copy into any file it can represent as statements.
- Exceptions other than the null dereference on an undocumented first namesake are not modelled. Such exceptions include parse errors, rewrite errors and a failing save.
- Marker creation failures, which the source ignores, are not modelled. The marker "line" is the comment's offset plus length, used as given, as in the source.
- Progress monitors, cancellation, logging and `printStackTrace` are left out.
- The resources each visitor walks are given as lists in visiting order: `resources` for a full build, `scan` for the removal cascade over all JavaScript projects. The delta is given as a list of nodes.
- Eclipse `Status` checks the severity it is given; that check is not modelled. An exception appears in a status as its text.
- `SSHBase` is not part of this model. Only the user name, password, host and key file that `parseUri` reads and sets are fields of `Scp.Scp`. `SetKeyfile` stands for its setter.
- The session, channel and file streaming of the upload (`execute`, `upload`, `main`, `ScpToMessage`, `openExecChannel`) are network code and are left out.
- `SshMessage.WaitForAck`: the input stream is the sequence of bytes it will deliver. An I/O error while reading is not modelled.
- `Sync.ProcessReplicates`: promises that each destination holds the copy once `process` is over, not that the copy is still last. A later function copied into the same file is appended after it.
