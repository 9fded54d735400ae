# Models of the cluster, storage, engine-description and CSV components

The project models the stateful protocols and the codecs of the repository and proves what they
keep, what they undo and what comes back.

| file | models |
|---|---|
| `csv.dfy` | the CSV writer and reader of the sqlite shell, in the format of section 2 of RFC 4180 |
| `edt_ir.dfy`, `edt_transform.dfy` | the section IR of the `engug` crate and its flattening to an offset-addressed string table |
| `edt_bytes.dfy`, `edt_writer.dfy`, `edt_layout.dfy` | the binary EDT writer, its byte orders and its prefix-sum layout |
| `edt_parser.dfy`, `edt_decode.dfy` | the binary EDT parsers, the entry loop, and the section that comes back |
| `utf8.dfy`, `edc_syntax.dfy`, `edc_check.dfy`, `edc.dfy` | the EDC text, its grammar, the validation of a section, and parsing as the inverse of printing |
| `taskmanager.dfy`, `taskruns.dfy`, `taskcalls.dfy` | the cluster's dependency matrix, for one request, over runs of requests and under any interleaving of handlers |
| `storage.dfy`, `negotiation.dfy` | the storage server's bindings and files, and the client that negotiates a task id with it |
| `drccp_ring.dfy`, `drccp_gossip.dfy` | load sharing: the hash ring with its forward loop, and the gossip of shares |
| `taskdep_codec.dfy` | the conversion of task requests with recursive engines to wire records and back |
| `lives.dfy`, `scheduler.dfy` | the lives of the services of the file system scheduler, and the scheduler that keeps them |
| `prelude.dfy` | shared types and sequence facts |

Code that changes things step by step is a class or a method with loops, proved equal to a function
of the old state or the inputs; the properties are lemmas about those functions.  Iteration orders
of hash tables, random numbers, results of foreign calls, and the network are arguments, so every
theorem holds for all of them.

## Where the code and its intent differ

* `remove_task` erases a row and a column but renumbers nothing.  `RemoveExactly` shows that the
  matrix then represents some task set exactly when the newest row was removed, `StalePosition` names
  a task whose next submission throws otherwise.  The refinement theorems hold for renumbered removal
  over every run (`EveryInterleavingRefines`, `RunRefines`), and for the code as written exactly over
  the runs that only remove the newest row (`LastInExactly`, `LastInRunExactly`).
* The manager's mutex is taken inside each of its operations, and a handler makes several of them for
  one request.  Two deploys at once can wait for each other (`CrossedDeploysDeadlock`), and the
  rollback of one can spoil the other (`InterleavedRollbackFails`).  `TaskCalls` gives the exact guards:
  no deadlock arises while every `add_deps` goes to smaller positions, and a rollback takes back its
  deploy while its row is the newest.  `FailedDeployIsNoOp` and the theorems of `TaskRuns` are about
  requests that no other handler comes between.
* The CSV round trip fails for some separators; `RoundTripExactly` gives the exact condition on
  them, for all rows, and `TableRoundTripExactly` the further one for whole tables.
* The layout in an EDT file is right exactly for little-endian files whose names fit 17 bytes and
  whose sections are under 256 bytes with seven string values for each one-byte integer
  (`LayoutExactly`): a string value is accounted for with one byte too many, a one-byte integer with
  seven too few, and the size is a `u8` that wraps (a debug build would panic there).
* The record stream parses back exactly when it holds no one-byte integer (`RecordStreamExactly`), a
  value decodes exactly when `Decodable` says so (`DecodeExactly`): big-endian doubles do, and
  strings whose rebased offset equals their length.
* An EDC text that stops being acceptable is cut there without an error; `TextTaken` says what was
  taken.  One that panics aborts the whole parse (`AbortsExactly`, `PanicsExactly`).  A "context" with "persistentpar" is checked for "persistent" (`ContextPanicsExactly`).
* The storage invariant breaks exactly when a step pushes, or a new task names, another task's
  anonymous engine file (`StepExactly`, `PushedFirstIsPulled`).
* Decoding over a used request appends authstrings, and keeps a field the record does not set;
  `RequestExactly` and `EndpointExactly` say exactly when the object comes back.
* The clockwise search of `select_best_target` never runs; the ring theorem is proved for the lookup
  as written and for the one meant.  As written, replies carry no shares, since `setup_share_resp`
  is never called; the gossip model lets a message carry any part of the sender's shares, none
  included.  Source and destination of a message are separate, though `setdest` overwrites the source.
* A node that fails to forward to itself can divide by zero at its next merge
  (`UnreachableSelfDividesByZero`); `DividesByZeroExactly` says for every report when an update does.
* A message in pieces is taken as soon as a run of pieces happens to parse (`ReassemblyExactly`).

## Model

| member | source | states |
|---|---|---|
| Csv.ShellState.ScanTerm | vendors/sqlite3-3.11.0/shell.c:837-844 | the scan ends with index 0 exactly when the term must be quoted (an empty one included) |
| Csv.ShellState.OutputCsv | vendors/sqlite3-3.11.0/shell.c:830-859 | a term is printed quoted with doubled quotes, or as is, or as the null value, then the separator if asked for |
| Csv.ShellState.OutputRow | vendors/sqlite3-3.11.0/shell.c:1056-1061 | a row, nulls included, is its terms, separated, and the row separator, or nothing without columns |
| Csv.QuotedCharacters | vendors/sqlite3-3.11.0/shell.c:805-822 | one character with a comma separator is quoted if and only if it is a control character, a space, a quote of either kind, the comma, or 127 and above |
| Csv.ImportCtx.AppendChar | vendors/sqlite3-3.11.0/shell.c:2276-2286 | the growing buffer stays in bounds with room for the terminator, and holds the old text and the new byte |
| Csv.ImportCtx.ReadQuoted | vendors/sqlite3-3.11.0/shell.c:2311-2347 | the three-character state machine with its backward scan reads the field the specification scans, and counts its lines |
| Csv.ImportCtx.BackToQuote | vendors/sqlite3-3.11.0/shell.c:2330-2330 | the backward scan stops in bounds at the last quote and cuts the field there |
| Csv.ImportCtx.ReadPlain | vendors/sqlite3-3.11.0/shell.c:2348-2358 | an unquoted field is the one of the specification, which `UnquotedExactly` fixes: all of the text before a separator or the end of input, without a CR before the row separator |
| Csv.ImportCtx.ReadOneField | vendors/sqlite3-3.11.0/shell.c:2301-2361 | one field, its terminator and the remaining input are those of the specification; line numbers plus the row separators still unread stay constant |
| Csv.UnquotedExactly | vendors/sqlite3-3.11.0/shell.c:2348-2361 | an unquoted text reads as itself at the end of input and before a column separator, and without a last CR before the row separator |
| Csv.QuotedAtTheEnd | vendors/sqlite3-3.11.0/shell.c:2331-2341 | a quoted text at the end of input reads as itself, with its closing quote or without |
| Csv.LoneQuoteStays | vendors/sqlite3-3.11.0/shell.c:2326-2347 | a quote that is neither doubled nor followed by a separator stays in the text |
| Csv.ScanUndoesDoubling | vendors/sqlite3-3.11.0/shell.c:2316-2347 | from any state that is not after a quote, scanning a doubled text and a closing quote gives the text |
| Csv.ScanReadsPlain | vendors/sqlite3-3.11.0/shell.c:2348-2358 | scanning text without separators gives the text |
| Csv.QuotedFieldRoundTrip | vendors/sqlite3-3.11.0/shell.c:2311-2347 | a quoted field reads back, whatever bytes it holds |
| Csv.PlainFieldRoundTrip | vendors/sqlite3-3.11.0/shell.c:2348-2361 | an unquoted field reads back |
| Csv.FieldRoundTrip | vendors/sqlite3-3.11.0/shell.c:830-859 | every printed term reads back as the string it was printed from, before a column separator or a row separator |
| Csv.CellsRoundTrip | vendors/sqlite3-3.11.0/shell.c:1048-1064 | a row with nulls reads back with the null value in their places, when that value is plain |
| Csv.RowRoundTrip | vendors/sqlite3-3.11.0/shell.c:1048-1064 | every row of strings reads back field by field; the column separator ends all fields but the last, the row separator the last |
| Csv.RoundTripExactly | vendors/sqlite3-3.11.0/shell.c:3117-3134 | every row reads back in front of any text if and only if the separators are acceptable: no quote, a row separator that forces quoting or equals the column separator, and no CR column separator with CR LF |
| Csv.SomeRowIsLost | vendors/sqlite3-3.11.0/shell.c:2301-2361 | for every other pair of separators, a row that does not read back |
| Csv.ImportCtx.ReadCells | vendors/sqlite3-3.11.0/shell.c:3234-3255 | the columns of one row, null once a field does not end at a column separator; nothing at the end of the stream |
| Csv.ImportCtx.SkipFields | vendors/sqlite3-3.11.0/shell.c:3256-3260 | the fields after the last column are read and dropped |
| Csv.ImportCtx.Import | vendors/sqlite3-3.11.0/shell.c:3232-3273 | the rows inserted from the whole stream |
| Csv.TableRoundTrip | vendors/sqlite3-3.11.0/shell.c:3232-3273 | a printed table of rows of any widths imports as its rows, cut or filled with nulls to the width of the table |
| Csv.TableWithoutEnd | vendors/sqlite3-3.11.0/shell.c:3232-3273 | the same when the last row separator is missing: no cell and no character of the last row is lost |
| Csv.TrailingSeparatorIsNull | vendors/sqlite3-3.11.0/shell.c:3234-3255 | a row cut after its first separator has null in every other column |
| Csv.CutAtNul | vendors/sqlite3-3.11.0/shell.c:3249-3253 | a field is bound up to its first NUL |
| Csv.EqualSeparatorsDropRows | vendors/sqlite3-3.11.0/shell.c:3256-3264 | where the row separator is the column separator, a second row is dropped |
| Csv.TableRoundTripExactly | vendors/sqlite3-3.11.0/shell.c:3232-3273 | with acceptable separators, every table of non-empty rows imports back if and only if the two separators differ |
| Csv.DefaultSeparatorsOk | vendors/sqlite3-3.11.0/shell.c:3122-3129 | comma and CR LF are acceptable |
| EdtIr.Section.AddEntry | engug/src/ir.rs:183-197 | the value is appended to the list under its key, no other key changes, and no list is ever empty |
| EdtTransform.SearchString | engug/src/transform.rs:114-123 | finds the first string with that offset and length |
| EdtTransform.SearchFindsReferent | engug/src/transform.rs:114-123 | the search finds the string a reference was made from, empty strings included |
| EdtTransform.ConvertValues | engug/src/transform.rs:35-59 | the converted values represent the values in order, references name the pushed strings, and the offset is the total length |
| EdtTransform.EntryAdded | engug/src/transform.rs:60-60 | distinct keys get distinct references, so inserting an entry overwrites none |
| EdtTransform.ToEdt | engug/src/transform.rs:21-69 | whatever the order of the keys, the result encodes exactly the name and the entries |
| EdtTransform.AddValues | engug/src/transform.rs:84-104 | the restored values are appended under the key, or a reference dangles |
| EdtTransform.FromEdt | engug/src/transform.rs:70-112 | the section built in place is the restored one, or restoring fails |
| EdtTransform.SectionComesBack | engug/src/transform.rs:21-123 | restoring an encoded section gives it back, for every iteration order |
| EdtTransform.RoundTrip | engug/src/transform.rs:21-123 | converting a reachable section and converting back gives the same name, keys and value lists |
| EdtBytes.NumRoundTrip | engug/src/writer.rs:220-227 | a number that fits its bytes comes back in either byte order |
| EdtBytes.NumExactly | engug/src/writer.rs:220-227 | each byte is the digit to base 256 of its place, the least significant first, or last in a big-endian file |
| EdtWriter.Writer.Write | engug/src/writer.rs:22-26 | the file is the header, the section table, the record streams and the blob |
| EdtWriter.Writer.WriteHeader | engug/src/writer.rs:28-51 | the 24-byte header |
| EdtWriter.Writer.CountRecords | engug/src/writer.rs:81-106 | the record count, and the accounted size modulo 256 |
| EdtWriter.Writer.WriteSectionHeader | engug/src/writer.rs:53-182 | the section count byte (twice for big-endian), an entry for each section, and the data entry |
| EdtWriter.Writer.PutSectionEntry | engug/src/writer.rs:66-155 | one table entry with the running offset, the section's size and its count |
| EdtWriter.PaddedExactly | engug/src/writer.rs:122-131 | a name field is the name and then spaces |
| EdtWriter.Writer.PutTable | engug/src/writer.rs:64-182 | offsets in the table are the prefix sums of the stored sizes, and the data entry has the blob's length |
| EdtWriter.Writer.PutValue | engug/src/writer.rs:228-308 | the bytes of one value, by type, width and byte order, with string offsets rebased |
| EdtWriter.Writer.PutRecord | engug/src/writer.rs:217-308 | the 17-byte key and the value |
| EdtWriter.Writer.WriteSection | engug/src/writer.rs:184-330 | the record streams, each rebased by the string bytes of the sections before it, and then the blob |
| EdtLayout.BlobHolds | engug/src/writer.rs:311-329 | the strings of section `i` stand in the blob at its `pre_offset` |
| EdtLayout.RebasedReference | engug/src/writer.rs:184-217 | every key or string reference, once rebased, slices its own string out of the blob, the one `search_string` finds |
| EdtLayout.Sizes | engug/src/writer.rs:81-106 | accounted size and written size differ by one per string value and seven per one-byte integer |
| EdtLayout.SizeExactly | engug/src/writer.rs:83-119 | the stored size is the written size if and only if that is under 256 and strings and one-byte integers balance |
| EdtLayout.TableLength | engug/src/writer.rs:122-155 | the table takes 38 bytes an entry and what over-long names add |
| EdtLayout.FileHolds | engug/src/writer.rs:22-26 | where the records of each section and the blob really stand in the file |
| EdtLayout.LayoutExactly | engug/src/writer.rs:28-182 | all offsets and sizes in the table are right if and only if the file is little-endian, names fit, and every section's size is exact |
| EdtParser.HeaderRoundTrip | engug/src/parser.rs:358-389 | the parser reads back the header: byte order, offset and size |
| EdtParser.TypesInPlace | engug/src/writer.rs:217-308 | the type bytes of key and value, and the width of a number, stand at fixed places of a record |
| EdtParser.TableEntryRoundTrip | engug/src/parser.rs:391-402 | the parser reads back a table entry in either byte order, with the name padded |
| EdtParser.RecordStream | engug/src/parser.rs:454-471 | `count` parses over a section's records consume exactly them and return keys, types, lengths and raw values in order |
| EdtParser.ByteBreaksStream | engug/src/parser.rs:417-421 | a one-byte integer anywhere leaves the stream unparsed or bytes over |
| EdtParser.RecordStreamExactly | engug/src/parser.rs:414-471 | the stream parses back if and only if it holds no one-byte integer |
| EdtDecode.DecodeExactly | engug/src/parser.rs:526-548 | which written values decode to themselves, in both directions |
| EdtDecode.ParseSection | engug/src/parser.rs:508-551 | the loop over `times` builds the section of the specification, or stops at a bad record |
| EdtDecode.SectionReplays | engug/src/parser.rs:516-551 | adding the records of a converted section one by one rebuilds its entries |
| EdtDecode.ConvertedIsWritable | engug/src/writer.rs:66-134 | a converted section meets what the writer needs, and is written under its name |
| EdtDecode.RecordFaithfulExactly | engug/src/parser.rs:522-548 | a record of a converted section gives back its key and value from the blob if and only if the value decodes |
| EdtDecode.OnlyTheValuesFold | engug/src/parser.rs:528-545 | adding other values under the same keys never gives the same entries |
| EdtDecode.SectionSurvivesExactly | engug/src/parser.rs:516-551 | IR section, string table, record bytes and entry loop in a row give the same entries, whatever follows, if and only if every value decodes and none is a one-byte integer |
| EdtDecode.TableFindsRecords | engug/src/parser.rs:512-517 | when the layout is right, the parsed table entry has the section's name and then spaces, kind 0 for "meta" and 1 otherwise, and leads to the section's records |
| EdtDecode.TableFindsBlob | engug/src/writer.rs:157-182 | the entry after them is "data", of kind 2, and leads to the blob |
| EdtDecode.CountByteExactly | engug/src/writer.rs:57-63 | the number of entries modulo 256 stands where the header ends, twice in a big-endian file |
| EdcSyntax.NameExactly | engug/src/parser.rs:92-101 | a name is parsed with a rest if and only if it is well formed and the text is its printed form and the rest |
| EdcSyntax.PropertyExactly | engug/src/parser.rs:103-116 | the same for a property |
| EdcSyntax.PropertiesExactly | engug/src/parser.rs:51-51 | `many0` takes a list of properties if and only if they are well formed and printed at the front, and no property follows |
| EdcSyntax.RawExactly | engug/src/parser.rs:46-51 | the syntax of a section is the exact inverse of printing it |
| EdcSyntax.RawShrinks | engug/src/parser.rs:34-34 | every section parsed strictly shrinks the input |
| Utf8.StripIgnores | engug/src/parser.rs:30-30 | white space between two pieces of text makes no difference |
| Utf8.StripExactly | engug/src/parser.rs:30-30 | each of the 25 white space characters, by code point, is removed wherever it stands, and every other character stays in its place |
| Utf8.NoneLeft | engug/src/parser.rs:30-30 | none of them is left |
| Utf8.KnownEncodings | engug/src/parser.rs:32-32 | the bytes of one character of each length |
| Utf8.EncodeInjective | engug/src/parser.rs:32-32 | a text is determined by its UTF-8 bytes |
| Utf8.CutAtAscii | engug/src/parser.rs:98-98 | bytes cut at an ASCII mark are the bytes of a text cut there, so `from_utf8` succeeds on the pieces |
| EdcSyntax.PlainDocument | engug/src/parser.rs:30-34 | a printed document holds no white space if and only if no name, key or value does |
| EdcCheck.CheckMeta | engug/src/parser.rs:121-146 | the verdict, and the empty name and description added when missing |
| EdcCheck.CheckReferences | engug/src/parser.rs:172-186 | the values of the three referring keys are declared names, or the first other one fails |
| EdcCheck.CheckBuffers | engug/src/parser.rs:147-241 | the verdict over the counts, the references and every declared name in order |
| EdcCheck.CheckRuntime | engug/src/parser.rs:242-264 | the verdict over the dependencies in order |
| EdcCheck.CheckAttribute | engug/src/parser.rs:292-304 | only single flags "lazy" and "persistent" pass |
| EdcCheck.Check | engug/src/parser.rs:118-310 | the verdict by section name, and the section afterwards |
| EdcCheck.BoundExactly | engug/src/parser.rs:187-240 | what a buffer of each binding needs, both directions |
| EdcCheck.Words | engug/src/parser.rs:171-247 | the words `check` knows |
| EdcCheck.UndeclaredReferenceFails | engug/src/parser.rs:170-184 | one undeclared name under any of the three referring keys fails the section |
| EdcCheck.BindPanicsExactly | engug/src/parser.rs:185-241 | a buffer panics if and only if the first of its keys that is not in order is missing or of another type |
| EdcCheck.NamesAreDeclared | engug/src/parser.rs:161-169 | the names checked are the extra ones and the numbered inputs and outputs, no other |
| EdcCheck.BuffersExactly | engug/src/parser.rs:147-241 | "buffers" passes if and only if the counts are single, every reference is to a declared name and every declared name is bound |
| EdcCheck.RuntimeExactly | engug/src/parser.rs:242-264 | "runtime" passes if and only if each dependency has a known type, a path and a relative path |
| EdcCheck.MetaExactly | engug/src/parser.rs:121-146 | "meta" passes if and only if, with defaults, its three keys are single |
| EdcCheck.CheckExactly | engug/src/parser.rs:118-310 | `check` passes if and only if the section it leaves is valid |
| EdcCheck.CheckPanicsExactly | engug/src/parser.rs:118-270 | `check` panics if and only if a key is missing, or of another type, and everything looked at before it is in order |
| Edc.AddProperties | engug/src/parser.rs:52-83 | the first bad property decides; otherwise all properties are added in order with their types |
| Edc.ParseSection | engug/src/parser.rs:46-90 | the section, its rest, a recoverable error or a panic are those of the specification |
| Edc.TypedStops | engug/src/parser.rs:52-83 | a bad property stays bad whatever follows |
| Edc.CountTypedExactly | engug/src/parser.rs:56-66 | a count is rejected if and only if it has a character that is no digit; it is the number shown, zeros in front allowed, and panics from 2^32 on |
| Edc.WordsTypedExactly | engug/src/parser.rs:67-85 | the four flags are true or false and nothing else, and every other key holds its text |
| Edc.MarksAre | engug/src/parser.rs:92-116 | the marks of the grammar, by character |
| Edc.PrintedDocument | engug/src/parser.rs:26-42 | parsing the text of any syntactically well-formed sections gives their meaning up to the first not accepted |
| Edc.TextTaken | engug/src/parser.rs:26-42 | for any text, what was taken is the printed form of the sections returned, and what is left starts with no acceptable section |
| Edc.AbortsExactly | engug/src/parser.rs:34-42 | parsing aborts if and only if the text is printed accepted sections and then a section that panics |
| Edc.PanicsExactly | engug/src/parser.rs:46-90 | a section panics if and only if the typing of a property does, or `check` does on what was typed |
| Edc.ParseIgnoresWhiteSpace | engug/src/parser.rs:30-30 | a white space character anywhere makes no difference to what is parsed |
| Edc.CheckOfTyped | engug/src/parser.rs:84-87 | a section of typed properties passes if and only if it is valid |
| Edc.NumberOfDecimal | engug/src/parser.rs:54-56 | a printed count parses back |
| Edc.ShownIsTyped | engug/src/parser.rs:53-82 | a printed count, flag or string is typed as itself |
| Edc.AcceptedIsPrintable | engug/src/parser.rs:46-90 | every accepted section is valid and has only values the text can express |
| Edc.PrintableIsAccepted | engug/src/parser.rs:46-90 | every such section, with its keys in any order, is accepted as itself |
| Edc.RoundTripExactly | engug/src/parser.rs:26-116 | parsing the canonical text of a document, read as UTF-8 and stripped of white space, consumes all of it and returns the document if and only if every section is printable, whatever the order of keys |
| Edc.CanonicalText | engug/src/parser.rs:26-42 | printable sections always have such a text |
| Edc.ParsedArePrintable | engug/src/parser.rs:26-42 | every section out of any text is printable |
| Edc.ParsedAreReachable | engug/src/transform.rs:21-69 | every section out of any text converts to the string table and back |
| Edc.ContextPanicsExactly | engug/src/parser.rs:265-282 | a "context" panics if and only if a count overflows, the parent is missing, or, with everything before in order, "persistentpar" is there without "persistent" |
| TaskManager.Taskmanager.DeployTask | computation/infer/infer.cc:508-525 | the new task gets the last row, every row a new last column |
| TaskManager.Taskmanager.AddDependencies | computation/infer/infer.cc:527-541 | the edges to the dependencies up to the first missing one |
| TaskManager.Taskmanager.SubmitTask | computation/infer/infer.cc:551-567 | refused for an unknown task, a row with an edge or an unknown server; throws on a stale position |
| TaskManager.Taskmanager.RemoveTask | computation/infer/infer.cc:593-606 | row, column and task go; the positions of the others stay |
| TaskManager.Taskmanager.ProcessDeploy | computation/taskdep/taskdep.cc:123-196 | the state and the response after a deploy request that no other handler comes between |
| TaskRuns.DeployReplyExactly | computation/taskdep/taskdep.cc:131-195 | which answer such a request gets, each if and only if: illegal, triggered, err, depsbroken, deployed |
| TaskRuns.DeployStores | computation/taskdep/taskdep.cc:131-154 | what an accepted one stores, field by field, and that no other task changes |
| TaskManager.UndoDeploy | computation/infer/infer.cc:593-606 | removing the newest task takes its deploy back, whatever edges its row got |
| TaskManager.FailedDeployIsNoOp | computation/taskdep/taskdep.cc:150-189 | such a request, rejected, leaves tasks and matrix exactly as before, from any square matrix |
| TaskManager.CreateIsNeverBlocked | computation/taskdep/taskdep.cc:162-177 | such a request, triggered at once, is refused only for an unknown server |
| TaskRuns.DeployRefines | computation/infer/infer.cc:508-525 | deploying refines joining the live tasks with no dependency |
| TaskRuns.MarksLivePrefix | computation/infer/infer.cc:533-540 | `add_deps` marks the dependencies before the first missing one, and those edges stay |
| TaskRuns.MarkRefines | computation/infer/infer.cc:527-541 | `add_deps` succeeds exactly on live dependencies, and refines adding them to the relation |
| TaskRuns.SubmitBlockedExactly | computation/infer/infer.cc:551-567 | submission is blocked exactly while some dependency is live |
| TaskRuns.RenumberedRefines | computation/infer/infer.cc:593-606 | removal with renumbering refines forgetting the task |
| TaskRuns.RemoveExactly | computation/infer/infer.cc:593-606 | removal as written refines it for the newest row, and for any other row represents nothing |
| TaskRuns.StalePosition | computation/infer/infer.cc:600-605 | after any other removal some live task has a position whose submission throws |
| TaskRuns.HandleDeployRefines | computation/taskdep/taskdep.cc:123-196 | a deploy handled alone is accepted exactly when the relation allows it, never crashes, and refines the abstract step |
| TaskRuns.RunRefines | computation/infer/infer.cc:508-606 | over every run of requests handled one at a time, with renumbered removal, matrix and positions represent exactly the depends-on relation of the live tasks |
| TaskRuns.LastInRunExactly | computation/infer/infer.cc:508-606 | the code as written represents the relation all along such a run if and only if it only ever removes the newest row |
| TaskRuns.RunsAreLower | computation/taskdep/taskdep.cc:150-194 | over requests handled one at a time where no task names itself, the matrix is strictly lower triangular in every reachable state |
| TaskRuns.Acyclic | computation/infer/infer.cc:517-541 | a chain of dependencies of any length never returns to its start |
| TaskRuns.OldestIsFree | computation/infer/infer.cc:557-559 | a non-empty task set has a submittable task |
| TaskRuns.DeploymentOrderDrains | computation/taskdep/taskdep.cc:197-208 | submitting and removing in deployment order runs every task |
| TaskRuns.SelfDependencyBlocks | computation/taskdep/taskdep.cc:178-189 | a task accepted with itself as a dependency can never be submitted |
| TaskRuns.TwoTaskExample | computation/infer/infer.cc:600-605 | two tasks, the first removed: submitting the second throws |
| TaskCalls.EveryInterleavingRefines | computation/infer/infer.cc:508-606 | over every sequence of mutex-level calls, however handlers interleave, the matrix with renumbered removal is exactly the depends-on relation |
| TaskCalls.LastInExactly | computation/infer/infer.cc:593-606 | over every such sequence the code as written represents the relation all along if and only if it only removes the newest row |
| TaskCalls.AddDepsLowerExactly | computation/infer/infer.cc:533-539 | `add_deps` keeps the matrix strictly lower triangular if and only if every edge it marks goes to a smaller position |
| TaskCalls.InterleavingLowerExactly | computation/infer/infer.cc:508-606 | an interleaving keeps it so all along if and only if every `add_deps` goes down |
| TaskCalls.NoDeadlock | computation/infer/infer.cc:557-559 | in such an interleaving a non-empty task set has a submittable task |
| TaskCalls.NewestGoesDown | computation/taskdep/taskdep.cc:178-180 | an `add_deps` that finds its task still the newest goes down, unless the task names itself |
| TaskCalls.CrossedDeploysDeadlock | computation/taskdep/taskdep.cc:150-189 | two deploys at once that name each other both succeed and can never be submitted |
| TaskCalls.InterleavedRollbackFails | computation/taskdep/taskdep.cc:178-182 | a rollback after another deploy leaves that other task throwing on submission |
| TaskCalls.RollbackAmongOthers | computation/taskdep/taskdep.cc:150-189 | whatever other handlers do between a deploy and its rollback, without naming the task, the relation afterwards is theirs alone with renumbered removal, and with the removal as written if and only if the row is still the newest; until its own `add_deps` the task can be submitted |
| TaskCalls.EventIsItsCalls | computation/taskdep/taskdep.cc:150-207 | a request whose calls stand next to each other does what the whole request does in one step |
| TaskCalls.RequestsAreCalls | computation/taskdep/taskdep.cc:110-217 | runs of requests handled one at a time are the runs of calls in which no two requests interleave |
| DrccpRing.ComputeHash | computation/drccp/server.cc:199-207 | the loop in 32-bit arithmetic, with signed characters |
| DrccpRing.ShortHashes | computation/drccp/server.cc:199-207 | the hash of addresses of up to two characters, the port mixed in at each turn |
| DrccpRing.SecondStep | computation/drccp/server.cc:204-204 | the arithmetic of the second turn, with the port shifted by one |
| DrccpRing.PortEnters | computation/drccp/server.cc:199-207 | two ports of one short address share a hash if and only if their 32 bits agree |
| DrccpRing.PointsDistinct | computation/drccp/server.cc:343-348 | the virtual points of one endpoint are pairwise distinct modulo 2^32 |
| DrccpRing.PointsAreSpread | computation/drccp/server.cc:344-347 | the first point stands at the hash, each next one a fixed part of the ring on |
| DrccpRing.LimitIsFloor | computation/drccp/server.cc:343-343 | an endpoint has the whole part of four times its share in points |
| DrccpRing.AloneOnTheRing | computation/drccp/server.cc:342-349 | on a ring of its own it owns exactly that many places |
| DrccpRing.FirstInsertedWins | computation/drccp/server.cc:345-348 | on a collision the first endpoint in map order owns the point |
| DrccpRing.OwnerAfterZero | computation/drccp/server.cc:342-349 | a zeroed endpoint owns nothing, and other endpoints keep their points |
| DrccpRing.ZeroMovesOnlyItsSources | computation/drccp/server.cc:339-360 | zeroing a share changes the target only of sources routed to that endpoint |
| DrccpRing.ZeroMovesOnlyItsSourcesClockwise | computation/drccp/server.cc:354-358 | the same for the clockwise search that was meant |
| DrccpRing.SelectedHasShare | computation/drccp/server.cc:343-353 | a peer with a share below 0.25 is never chosen |
| DrccpRing.FailureRemoves | computation/drccp/server.cc:374-377 | a failed forward removes exactly its target from the selectable peers |
| DrccpRing.PeersTriedOnce | computation/drccp/server.cc:361-396 | while forwards fail, no peer is tried twice and the selectable set shrinks by the peers tried |
| DrccpRing.ForwardReachesSelf | computation/drccp/server.cc:361-396 | after at most as many failures as there are selectable peers the task goes to the node itself |
| DrccpRing.Server.SelectBestTarget | computation/drccp/server.cc:339-360 | building the ring in nested loops and looking up gives the selected endpoint |
| DrccpRing.Server.InsertPoints | computation/drccp/server.cc:343-348 | the points of one endpoint are added where the ring is free |
| DrccpRing.Server.Forward | computation/drccp/server.cc:361-396 | the targets tried, the shares zeroed, and the gain of the target that took the task |
| DrccpGossip.Node.UpdateShares | computation/drccp/server.cc:323-338 | the merged map, which `UpdateExactly` fixes, or a division by zero |
| DrccpGossip.MergedExactly | computation/drccp/server.cc:334-334 | a share is the merge of two reports if and only if it balances two thirds of each by their weights |
| DrccpGossip.MergedSymmetric | computation/drccp/server.cc:334-334 | exchanging the reports with their weights makes no difference |
| DrccpGossip.MergedAtTheEnds | computation/drccp/server.cc:334-334 | where one weight is zero the merge is two thirds of the other report |
| DrccpGossip.MergedRisesExactly | computation/drccp/server.cc:334-334 | a merge exceeds two thirds of the own share if and only if the peer has weight and reports more |
| DrccpGossip.UpdateExactly | computation/drccp/server.cc:323-338 | what a whole report makes of a member it names once, new or known, and that others stay |
| DrccpGossip.UpdateRisesExactly | computation/drccp/server.cc:323-338 | a known member named once rises above two thirds of its share if and only if more is reported by a peer with weight |
| DrccpGossip.MergedBetween | computation/drccp/server.cc:334-334 | a merged share lies between two thirds of the smaller and of the larger report |
| DrccpGossip.MergedPositive | computation/drccp/server.cc:334-334 | a positive own share stays positive |
| DrccpGossip.UpdateKeeps | computation/drccp/server.cc:323-338 | a merge keeps shares non-negative, the own share positive, and every member |
| DrccpGossip.MergeFailsExactly | computation/drccp/server.cc:331-337 | the loop over any report fails exactly when the weights cancel and some entry is merged; otherwise exactly the known and the reported are known |
| DrccpGossip.DividesByZeroExactly | computation/drccp/server.cc:323-338 | an update with any report divides by zero if and only if own and peer share are both zero and the report names a member known before or twice |
| DrccpGossip.EventDividesByZeroExactly | computation/drccp/server.cc:264-303 | which events of a node divide by zero, both directions |
| DrccpGossip.SigninInserts | computation/drccp/server.cc:133-134 | the first shares reported are taken for members not known yet, and for no other |
| DrccpGossip.PointsThroughEvents | computation/drccp/server.cc:276-303 | what the events do in points on the ring: four for a new node, two for work done, none after a failure |
| DrccpGossip.StepKeeps | computation/drccp/server.cc:264-286 | every event of the network keeps all nodes healthy and all members known |
| DrccpGossip.GossipIsSafe | computation/drccp/server.cc:297-303 | over every run in which no forward to itself fails: shares non-negative, own shares positive, members never dropped, no division by zero, across all nodes and messages |
| DrccpGossip.UnreachableSelfDividesByZero | computation/drccp/server.cc:374-377 | a run with a failed forward to itself that divides by zero |
| TaskdepCodec.AssignEndpoint | proto/taskdep/message.cc:17-35 | the record of an endpoint |
| TaskdepCodec.AssignENDPOINT | proto/taskdep/message.cc:37-51 | decoding into an object: unknown protocols and authtypes keep the old ones, authstrings are appended |
| TaskdepCodec.SettersExactly | proto/taskdep/message.cc:37-51 | exactly seven protocols and five authtypes are taken, everything else as sent, and the authstrings come after the old ones |
| TaskdepCodec.EndpointExactly | proto/taskdep/message.cc:37-51 | an endpoint comes back into an object if and only if that object has no authstring, and no protocol where none is sent |
| TaskdepCodec.AssignEngine | proto/taskdep/message.cc:53-71 | the record of an engine and, recursively, of its dependencies |
| TaskdepCodec.AssignENGINE | proto/taskdep/message.cc:73-90 | the engine of a record, whatever the object held before |
| TaskdepCodec.EngineComesBack | proto/taskdep/message.cc:53-90 | engine trees of any depth and width come back |
| TaskdepCodec.RequestExactly | proto/taskdep/message.cc:505-699 | a request decoded over another comes back, up to empty engine and attr, if and only if the three objects are clean |
| TaskdepCodec.FreshRoundTrip | proto/taskdep/message.cc:505-699 | into a fresh request it always does, and a second encode and decode changes nothing |
| TaskdepCodec.PutDatasource | proto/taskdep/message.cc:515-529 | the datasource fields of the record |
| TaskdepCodec.PutAttr | proto/taskdep/message.cc:533-554 | the attr fields of the record, with both lists in order |
| TaskdepCodec.TakeDatasource | proto/taskdep/message.cc:605-621 | the datasource of a record, whatever the object held before |
| TaskdepCodec.TakeAttr | proto/taskdep/message.cc:646-678 | the attr of a record, with both lists cleared first |
| TaskdepCodec.PartsComeBack | proto/taskdep/message.cc:515-678 | datasource and attr come back |
| TaskdepCodec.Request.MakeRecord | proto/taskdep/message.cc:505-561 | the record of the request |
| TaskdepCodec.Request.Encode | proto/taskdep/message.cc:563-570 | the serialized record, which stays in the buffer |
| TaskdepCodec.Request.TakeRecord | proto/taskdep/message.cc:594-698 | the request after decoding a record, or unchanged on a wrong magic |
| TaskdepCodec.Request.Append | proto/taskdep/message.cc:573-598 | a piece is added to the buffer; the first text the parser accepts is taken and the buffer emptied |
| TaskdepCodec.Request.AppendAll | proto/taskdep/message.cc:573-592 | feeding pieces takes the first message among their runs |
| TaskdepCodec.ReassemblyExactly | proto/taskdep/message.cc:575-593 | a message cut in pieces is reassembled if and only if the parser accepts the whole and no shorter run of its pieces |
| Storage.PathIsAnonymous | storage/datamanagement/datamanagement.cc:142-146 | only the anonymous mid and the decimal id name the anonymous file of a task |
| Storage.Datamanager.PushEngine | storage/datamanagement/datamanagement.cc:142-146 | a new file is written, an existing one is left alone |
| Storage.Datamanager.PullEngine | storage/datamanagement/datamanagement.cc:136-140 | the file, or empty |
| Storage.Datamanager.ProcessNegotiate | storage/taskdep/taskdep.cc:138-184 | conflict for a bound id, else binding, extfiles and anonymous file |
| Storage.Datamanager.ProcessRelease | storage/taskdep/taskdep.cc:186-203 | binding, extfiles and anonymous file go |
| Storage.Datamanager.ProcessPull | storage/datatrans/DatatranServer.cc:95-135 | the engine by name, or by task id with its dependencies |
| Storage.StepExactly | storage/taskdep/taskdep.cc:138-244 | a step keeps the invariant (extfiles only for bound tasks, the anonymous file exactly while bound with a binary) if and only if it neither pushes nor names a foreign anonymous file |
| Storage.RunsKeepInvariant | storage/taskdep/taskdep.cc:138-244 | the invariant over every interleaving that avoids the anonymous mid |
| Storage.StepIsLocal | storage/taskdep/taskdep.cc:138-244 | no step on one id disturbs another |
| Storage.NegotiatesExactly | storage/taskdep/taskdep.cc:146-182 | a request is accepted if and only if its id is unbound; a conflict changes nothing |
| Storage.NegotiatedIsKept | storage/taskdep/taskdep.cc:157-180 | until the release, the engine's name, dependencies and extfiles are the negotiated ones |
| Storage.ReleasedIsGone | storage/taskdep/taskdep.cc:186-203 | a release takes exactly the task's binding, extfiles and anonymous file, and the id can be bound again |
| Storage.PushThenPull | storage/datatrans/DatatranServer.cc:99-105 | an engine pushed is what is pulled by its name ever after, or the earlier one of that name |
| Storage.NothingPushedPullsEmpty | storage/datatrans/DatatranServer.cc:99-105 | a name nobody pushed pulls an empty binary |
| Storage.DependenciesPulled | storage/datatrans/DatatranServer.cc:117-125 | a pull by id brings the bound dependencies in order, each with the file of its name |
| Storage.PullReturnsNegotiated | storage/datatrans/DatatranServer.cc:107-125 | until terminate or done, pulling by task id returns the negotiated binary, whatever else happens |
| Storage.PushedFirstIsPulled | storage/datatrans/DatatranServer.cc:137-141 | an engine pushed under the anonymous mid before the negotiation is what is pulled |
| Storage.BoundUntilReleased | storage/datamanagement/datamanagement.cc:209-222 | a bound id stays bound until terminate or done |
| Storage.AcceptedTwiceMeansReleased | storage/taskdep/taskdep.cc:149-181 | between two accepted requests for an id it was released |
| Negotiation.CreateNegotiateTask | management/taskdep/taskdep.cc:165-231 | the callbacks and the retry loop, stray replies included, return what the specification says, which `AnswerExactly` fixes, and change the storage as it says |
| Negotiation.AnswerExactly | management/taskdep/taskdep.cc:28-87 | the answer and the store after it, for any script: the first attempt that ends the call does so for the id requested then, which is the last alternative offered by a conflict |
| Negotiation.AcceptedExactly | management/taskdep/taskdep.cc:50-67 | an id is returned as accepted if and only if the first attempt that ends the call is a delivered one that finds it unbound |
| Negotiation.FirstUnboundIsReturned | management/taskdep/taskdep.cc:56-67 | with nobody else at work and no losses, the first unbound id of the alternatives is returned and bound |
| Negotiation.ReturnedIdIsBound | management/taskdep/taskdep.cc:28-87 | for any losses and conflicts, a non-zero id was unbound before its accepted request and is bound to the given engine by it |
| Negotiation.WhatACallBinds | management/taskdep/taskdep.cc:38-72 | whatever others do meanwhile: a granted id was unbound before its request, so an id known before or granted twice was released in between; it stays bound to the engine unless released; other bindings stay unless released; nobody else is bound but by others |
| Negotiation.AloneACallBinds | management/taskdep/taskdep.cc:38-72 | with nobody else at work a call binds exactly the ids its accepted requests named, each once, lost replies included |
| Negotiation.TwoCallsTwoIds | management/taskdep/taskdep.cc:165-231 | two successful calls return the same id only with a terminate or done of it between |
| Negotiation.StaysTaken | management/taskdep/taskdep.cc:28-87 | a call never returns an id that stays bound |
| Lives.EnableExactly | storage/fs/scheduler/Scheduler.cc:82-103 | a service is enabled afterwards if and only if it was before or its `init` succeeds at some mention; scopes stay |
| Lives.DisableExactly | storage/fs/scheduler/Scheduler.cc:106-122 | exactly the mentioned services are disabled, each with the one destroy it owed |
| Lives.UnloadGood | storage/fs/scheduler/Scheduler.cc:125-147 | what is unloaded leaves no service enabled |
| Lives.RunOwned | storage/fs/scheduler/Scheduler.cc:69-147 | an id names the service that its last registration since an unload made, and every accepted registration made one |
| Lives.RunLivesAre | storage/fs/scheduler/Scheduler.cc:69-219 | status, scope and both counts of every service, read off the commands that reach it |
| Lives.StartsStop | storage/fs/scheduler/Scheduler.cc:82-122 | among any attempts and mentions, every start but the current one has stopped |
| Lives.FailuresAreDestroyed | storage/fs/scheduler/Scheduler.cc:90-100 | a disabled service is destroyed once for each `init` that fails before the first success |
| Lives.EveryEnableIsDestroyed | storage/fs/scheduler/Scheduler.cc:47-219 | over every sequence of operations and then the destructor, each service ever registered was enabled and destroyed as often as the commands that reach it start it, failed `init` included |
| Scheduler.Service.Enable | storage/fs/scheduler/Scheduler.cc:90-100 | enabled unless `init` fails, and a failed `init` is destroyed at once; `RunLivesAre` counts both |
| Scheduler.Service.Disable | storage/fs/scheduler/Scheduler.cc:114-119 | an enabled service is destroyed once and disabled |
| Scheduler.Added | storage/fs/scheduler/Scheduler.cc:76-77 | adding a service to both containers keeps one multimap entry per service |
| Scheduler.Removed | storage/fs/scheduler/Scheduler.cc:133-144 | removing a service and its entry keeps the mirror |
| Scheduler.Scheduler.Register | storage/fs/scheduler/Scheduler.cc:69-79 | refused for a bad or used id, else one new disabled service in both containers |
| Scheduler.Scheduler.Enable | storage/fs/scheduler/Scheduler.cc:82-103 | the lives after the loop over ids, in place; the mirror stays |
| Scheduler.Scheduler.Disable | storage/fs/scheduler/Scheduler.cc:106-122 | the lives after the loop over ids, in place; the mirror stays |
| Scheduler.Scheduler.Unload | storage/fs/scheduler/Scheduler.cc:125-147 | the mentioned services are disabled and leave both containers |
| Scheduler.Scheduler.ChangeScope | storage/fs/scheduler/Scheduler.cc:202-219 | one service moves to the new scope with its entry |
| Scheduler.Scheduler.BalanceSelect | storage/fs/scheduler/Scheduler.cc:163-177 | an enabled service in range, or null when there is none |
| Scheduler.Scheduler.ServiceChoose | storage/fs/scheduler/Scheduler.cc:179-200 | by id or by range, null or an enabled service |
| Scheduler.Scheduler.StrategyChoose | storage/fs/scheduler/Scheduler.cc:150-161 | the strategy is stored, the choice meets it, and nothing else changes |
| Scheduler.Scheduler.DestroyAll | storage/fs/scheduler/Scheduler.cc:50-56 | in any order every registered and enabled service is destroyed once |
| Scheduler.Scheduler.Destroy | storage/fs/scheduler/Scheduler.cc:47-58 | the containers are empty and the lives ended |
| Scheduler.Scheduler.Step | storage/fs/scheduler/Scheduler.cc:69-219 | every operation has its effect on the lives and the id map, keeps the mirror, and forgets no service |
| Scheduler.WholeLife | storage/fs/scheduler/Scheduler.cc:47-219 | any sequence of operations and then the destructor leave exactly the lives they prescribe |

## Left out

- Csv: separators above 127 (plain `char` may be signed there), the header row, the interrupt flag, overflow of `nAlloc` and the error messages on stderr.
- Csv.TableRoundTrip: tables of non-empty rows, since a row without columns is not printed at all; creating the table from a first row is not modelled.
- Csv.CellsRoundTrip: a null value that has to be quoted, or holds a separator or a CR, is not covered.
- EdtIr: a `String` is a byte list, so that UTF-8 validity is not checked; floating-point values are bit patterns without NaN.
- EdtDecode.SectionSurvivesExactly: one section, not a whole file: the parser reads an 8-byte section count where the writer puts one or two bytes, and takes names with their padding.
- EdtWriter: the panic of a debug build when the size counter overflows; the counter wraps as in a release build.
- Edc.RoundTripExactly: the text is given; reading the file is not part of this model.
- TaskManager: parameters of a task that only pass through the submission, and the message sent to storage when a task is done.
- TaskManager.ProcessDeploy: a request that no other handler comes between; interleaved requests are the calls of `TaskCalls`.
- TaskManager.FailedDeployIsNoOp: a request that no other handler comes between; with others the condition is that the row is still the newest (`TaskCalls.RollbackAmongOthers`).
- TaskManager.CreateIsNeverBlocked: a request that no other handler comes between; with others see `TaskCalls.RollbackAmongOthers`.
- TaskRuns.HandleDeployRefines: a request that no other handler comes between.
- TaskRuns.RunRefines: requests handled one at a time, and renumbered removal, not the removal as written, which it fails for; `TaskCalls.EveryInterleavingRefines` is about any interleaving.
- TaskRuns.RunsAreLower: requests handled one at a time; the exact condition under interleaving is `TaskCalls.InterleavingLowerExactly`.
- TaskRuns.LastInRunExactly: requests handled one at a time; `TaskCalls.LastInExactly` is about any interleaving.
- TaskCalls.NoDeadlock: renumbered removal.
- DrccpRing.ForwardReachesSelf: no concurrent update of shares during the forward loop.
- DrccpGossip.GossipIsSafe: real arithmetic; rounding of `float` is not modelled, and runs in which a node fails to reach itself are excluded because the property fails there.
- Storage: the file system always works and paths are not normalised; runtime and binary transfers, an uninitialised manager and ill-typed requests that get no reply.
- Storage.RunsKeepInvariant: ids pushed or named differ from the anonymous mid; without that the property is false, as `StepExactly` says.
- TaskdepCodec: the bytes of protobuf, whose serializer and parser are arguments, and the `Response` messages.
- Scheduler: operations replaced after registration, the file operations passed through to the current service, a current service that was unloaded, and memory ownership.
- The retry counter of deploy requests (management/taskdep/taskdep.cc:117-122): its stop flag is overwritten at once, so no bound holds.
- Networking, TLS, the router's AT commands, flag parsing, cryptography, images, ONVIF and the vendored libraries other than the CSV part: foreign calls or thin wrappers.
