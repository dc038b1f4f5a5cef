# Nebula Atom: a verified model of its core

Nebula Atom is a C++ web framework. This project models four connected parts of it in Dafny and proves what they
promise.

1. **The action pipeline** (`query.dfy`, `json.dfy`, `pipeline.dfy`, `action.dfy`, `function.dfy`, `requests.dfy`). A
   function runs a list of actions; each binds its parameters, sends a statement, turns the rows into a JSON table and
   may feed cells of its results to later actions. `Actions.Action` and `Functions.Function` are the objects as the code has
   them: values are shared by pointer and the fields are updated in place. `Pipeline` says what a run means when every
   value is copied, and its lemmas say what that meaning promises. The database server is an arbitrary function of
   everything sent to it so far, so it may fail at any request and may be changed by others between two requests.
2. **The cached action and the asynchronous statement** (`cache_protocol.dfy`, `cache_runs.dfy`,
   `cache_progress.dfy`, `async_protocol.dfy`):
   transition systems over all interleavings of workers, readers, writers, a stopper and the owner of the action.
3. **Tables in memory that copy the database** (`sessions.dfy`, `session_runs.dfy`, `permissions.dfy`). Every call of a
   manager is one atomic step, and every database write may fail.
4. **Files, texts and routes** (`file_manager.dfy`, `replace_text.dfy`, `route.dfy`) over a modelled file system.

`wrappers.dfy`, `sets.dfy` and `http.dfy` hold what several parts use.

## Where the code does not do what its names or comments say

The model follows the code in these places; the named members prove what happens.

- The comment at src/handlers/root_handler.cpp:173-176 says that results are reset. `Action::get_results()` returns the
  pointer by value (src/functions/action.h:83-87), so nothing is reset, and `MakeResults_` appends
  (`Actions.Action.MakeResults`): `Pipeline.SecondRunAppends` is a second run that shows a row twice. The theorems about
  a run therefore hold for any rows that the actions already have.
- `UploadFile_` asks for the size of every target after each move (src/files/file_manager.cpp:271-273). A batch of two
  or more files with a file to move always ends in an exception after the first move:
  `FileManagers.FileManager.UploadFile`, and `FileManagers.TwoFileUpload` for two given files.
- `VerifyMaxFileSize_` compares lengths that are 0 until a file has been moved (src/files/file.cpp:11), so the size
  limit refuses no upload: `Requests.Service.NothingIsTooLarge`.
- The destructor can wait for ever: a failed statement never sets the flag (`AsyncProtocol.FailedNeverDestroyed`), and a
  second launch that cannot start its thread resets a flag that was already set (`AsyncProtocol.RelaunchHangs`).
  `AsyncProtocol.DestructorCanReturn` and `AsyncProtocol.ReturnsIffNeverDoomed` say exactly when it can return and when
  it does.
- The destructor can return too early: with two threads on one action, or when the owner itself executes a statement
  after the launch, which sets the flag for the thread: `AsyncProtocol.SafeIffAtMostOneThread`.
- A failed delete of a session's row is ignored, so a restart can bring a session back that was logged out:
  `SessionRuns.LogoutUndoneByRestart` says exactly when, and `SessionRuns.LoggedOutAndBack` is one such run.
- A second function under an endpoint is never found, even when its method would match: `Routes.FirstBySegments`.
- The search for a fresh name gives up at its 1,000,001st candidate even if that one is free:
  `FileManagers.FileManager.ChangePathAndFilename`.

## What the model assumes

- A condition's functor is a function of the value (or of the rows) it is given; a parameter's functor may also set the
  parameter's error text, as the ones in src/examples/backend_api.cpp do.
- Only value objects are shared. Actions, their results and their parameters are separate objects, as `AddAction_` and
  `AddParameter_` create them; a function's own parameters are not parameters of its actions.
- `handlePart` runs in upload mode, in which `Body` creates the file manager (src/http/body.cpp:23-29). The list of
  files is empty for GET and DEL requests, because only POST and PUT read a multipart form
  (src/handlers/root_handler.cpp:185-208).
- Poco's `getSize` raises an exception for a missing file; `moveTo` either moves the file or raises an exception and
  changes nothing, and always does so for a missing file. Nobody else changes the file system during a request, and
  writing a response does not fail.
- Fairness in the cache: a worker that can take a step again and again takes one. Generated session ids never repeat. Where the parts of an upload end up is stated for generated file names that never
  coincide; the number of responses and the reasons of a refusal are stated without that.
- A statement reads one version of the rows; a step that reads or writes a flag or a pointer is atomic and seen by all
  threads, although the code uses plain members for them.
- The owner of an asynchronous action makes its calls one after the other and never clears the error; any other call of
  its that fails is, for the flags, like an execution that fails.
- Any number of workers may refresh one cached action. In the code a second `Work_` replaces the thread object of the
  first, so that more than one worker needs the earlier thread to have been joined.

## Model

| member | source | states |
|---|---|---|
| Pipeline.RunIsPrefix | src/functions/function.cpp:184-226 | For every list of actions, whatever rows they already have, and every server: exactly a prefix of the actions' statements is sent, each with the arguments the dataflow gives it, and it ends with the first failure of a session, a condition, a statement or an id query; every table, also that of the failing action, is what the action had followed by the rows of the server's reply to its statement; actions after the failure keep what they had; the failure text is accounted for by the replies and the conditions. |
| Pipeline.RunIsOnlyOutcome | src/functions/function.cpp:184-226 | The partner: an outcome is explained in this way exactly when its log, its tables and its failure are those of the run. |
| Pipeline.ExplainedOnce | src/functions/function.cpp:208-223 | Two explained outcomes stop at the same action and agree in log, tables and failure: one cannot fail where another goes on. |
| Pipeline.StatementsSent | src/functions/action.cpp:128-228 | In every run a statement is sent exactly when no earlier action has failed, the action is not in error, its session is opened and every condition of severity error holds for its argument, whatever the warnings say; it is the action's own statement with its arguments, and the id of the last row is asked for after a success. |
| Pipeline.FailureText | src/functions/action.cpp:577-653 | A run that succeeds breaks no error condition; one that fails leaves the preset text, or that of the first argument or of the rows that break one: what the functor said, the preset text, or the standard one. |
| Pipeline.RunExplained | src/functions/function.cpp:208-223 | The same from any point of a run on: the induction over the remaining actions. |
| Pipeline.ActionExplained | src/functions/action.cpp:128-162 | One action sends a prefix of session, statement and last-insert-id query; it ends well only if all three were answered and all conditions hold; where it stops otherwise and which text it leaves is determined by the replies and the conditions. |
| Pipeline.ResolveIsDataflow | src/functions/action.cpp:557-575 | A positional parameter gets the cell of the first action with the related identifier if the cell exists and is not NULL: from the final table if that action stands earlier, from the rows of before the run otherwise; a forward or self reference to an action without rows keeps the prior value. |
| Pipeline.TablesKept | src/functions/action.cpp:313-351 | A later action never changes the rows of an earlier one. |
| Pipeline.SecondRunAppends | src/functions/action.cpp:313-351 | With a server that always answers with one row, a second run of an action shows the row twice, in its table and in its JSON. |
| Pipeline.ComposeMeaning | src/functions/action.cpp:177-228 | Binding succeeds exactly when all error conditions hold, and then binds the resolved values in order; otherwise the text is that of the first parameter that fails. |
| Pipeline.ComposeIsDataflow | src/functions/action.cpp:177-228 | The same against the final tables of the run. |
| Pipeline.JsonOfRun | src/functions/function.cpp:220-222 | The JSON of a successful run is the table, the status and the message of the last final action, and the object passed in when there is none. |
| Pipeline.FileRunAgrees | src/functions/function.cpp:228-251 | A file function sends what a JSON function sends unless a first cell is not a string; the path is the first cell of the last final action that has one; it stops on a cell that is not a string only when a final action has such a first cell, and finds no path when one has. |
| Query.Results.ExtractField | src/query/results.cpp:33-62 | The shared field at the position, or a null field when row or column is out of range or the value is NULL. |
| Query.Results.PushRow | src/functions/action.cpp:335-347 | Appends a row whose fields show the fetched cells, each with a value object that did not exist before and a null flag that tells whether it is NULL; the older rows and values stay. |
| Actions.Action.constructor | src/functions/action.cpp:8-32 | A new action is not in error, has no rows, and is described by its definition. |
| Actions.Parameter.WithValue | src/query/parameter.cpp:6-16 | A parameter with its own shared value. |
| Actions.Parameter.WithPosition | src/query/parameter.cpp:18-28 | A positional parameter starts with a new empty value. |
| Actions.Action.ReplaceParameter | src/functions/action.cpp:48-63 | Only the first parameter of the name is re-pointed, and only if it is editable. |
| Actions.Action.SetupPositionParameter | src/functions/action.cpp:557-575 | The parameter is pointed at the very value object of the cell it names, in the results of the first action with the identifier, or left alone when there is no such cell or it is NULL; no value object is written. |
| Actions.Action.VerifyParameterCondition | src/functions/action.cpp:577-614 | False exactly when there is a condition of severity error whose functor does not hold for the value; then the action is in error with the functor's text, the preset text or the standard one. |
| Actions.Action.ComposeQuery | src/functions/action.cpp:164-250 | False exactly when the action is in error afterwards; on success the bindings refer to the resolved values; an action already in error sends nothing. |
| Actions.Action.BindParameters | src/functions/action.cpp:177-228 | The loop over the shared parameters computes what copying the values computes. |
| Actions.Action.ExecuteQuery | src/functions/action.cpp:252-282 | Sends the statement with the values its references hold at that moment; error exactly when the server fails. |
| Actions.Action.MakeResults | src/functions/action.cpp:313-372 | Appends the fetched rows in order after the rows that were there, with value objects that did not exist before; an exception keeps the rows read before it and sets the error. |
| Actions.Action.GetLastInsertID | src/functions/action.cpp:460-517 | Sends the id query; keeps the first cell when it is an integer, else the id it had. |
| Actions.Action.VerifyCondition | src/functions/action.cpp:616-653 | False exactly when there is a condition of severity error whose functor does not hold for the rows; the text stays the preset one unless that is empty. |
| Actions.Action.CreateJSONResult | src/functions/action.cpp:374-438 | Columns of the first row and one object per row, in order; the empty object for an action in error. |
| Actions.Action.Work | src/functions/action.cpp:128-162 | On shared objects the action does what the copying semantics says, also with rows of an earlier run: same requests, rows, JSON with status and message, and error text; no existing value object is written. |
| Functions.Function.ProcessAction | src/functions/function.cpp:184-206 | Runs one action that sees all the others; an action already in error is not run and its text becomes the function's. |
| Functions.Function.ProcessJSON | src/functions/function.cpp:208-226 | The loop over shared objects has the outcome of the run over copies, for any aliasing of values and any rows the actions already have. |
| Functions.Function.ProcessFile | src/functions/function.cpp:228-251 | The same for file functions. |
| Functions.Function.AddRequestParameters | src/handlers/root_handler.cpp:254-289 | After reading a JSON array a name is given the value of its last entry that has both name and value. |
| Functions.LastEntryIsLast | src/handlers/root_handler.cpp:259-289 | The value that counts is that of an object with the name and a value that no other such object follows. |
| Functions.Function.IdentifyParameters | src/functions/function.cpp:404-419 | Every editable parameter is pointed at the value of the last parameter of the function with its name, the others are left alone; for a run this equals copying the values. |
| Functions.LastNamedIsLast | src/functions/function.cpp:404-419 | The parameter that counts is the one that no other of its name follows. |
| Functions.Function.IdentifyRequest | src/handlers/root_handler.cpp:222-252 | After reading the entries of a request all actions are the ones with the requested values, whatever values they share. |
| Functions.RequestToArgument | src/functions/action.cpp:177-228 | From the request to the statement: an argument is the cell its parameter refers to; without one it is the text of the last usable entry under its name if the parameter is editable, else what the function had under the name, else the parameter's own value. |
| Json.JsonIsFaithfulIffUniform | src/functions/action.cpp:391-435 | The rows can be read back from the JSON, NULL shown as the empty string, exactly when all rows have the first row's columns and same-named cells of a row show the same value. |
| Json.LastFieldWins | src/functions/action.cpp:406-429 | A member of a row object holds the value of the last field of its name. |
| Json.MembersAreColumns | src/functions/action.cpp:406-429 | A row object has exactly the columns of its row as members; NULL is an empty string. |
| Requests.Service.ProcessAsJSON | src/functions/function.cpp:92-110 | Exactly one response: the JSON of the run, or a bad request with the text of its failure. |
| Requests.Service.HandleJSON | src/handlers/root_handler.cpp:222-252 | From the entries of a request to its one response, through the shared values: the JSON or the failure of the run over copies of the actions with the requested values. |
| Requests.Service.ProcessAsFile | src/functions/function.cpp:111-180 | Exactly one response on every path, for any file names and directories, and which one it is: refused actions and a first cell that is not a string are answered with the error text and change no file; otherwise it is the one of the method. The parts of an upload are at their temporary paths or their targets, older files but a replaced one are untouched, and the response tells what has moved. |
| Requests.Service.ProcessVerb | src/functions/function.cpp:125-147 | Exactly one response for every method, also when an exception is raised before one was sent, and which one it is, with the file system it leaves: for an upload a search that gave up, the verdict on the batch, or the error text; when names do not coincide an accepted batch is reported exactly when it can be completed, and the error text means that only the first file with a name has moved, if any. |
| Requests.Service.VerbReplyMeans | src/functions/function.cpp:125-147 | Method by method, the response and the file system that is left: what a removal removes, what a failed check or an exception leaves alone, and over which file system an upload works. |
| Requests.Service.UploadReplyMeans | src/functions/function.cpp:287-321 | A refusal of an upload is true of some file, the report and the error text are sent only for batches that break no rule, and a refusal moves nothing. |
| Requests.Service.NothingIsTooLarge | src/files/file_manager.cpp:227-238 | No received batch is refused for its size, because no length has been set when the limit is checked. |
| Requests.Service.DownloadProcess | src/functions/function.cpp:253-285 | Sends the bytes of a readable and supported file under the base directory, or the page for the check that failed. |
| Requests.Service.UploadProcess | src/functions/function.cpp:287-321 | For all names: an exception leaves no response; a refusal names the reason, which for a missing target is a search whose 1,000,000 candidates all exist, and moves nothing. When names do not coincide: each part lies at exactly one path and older files are untouched; an accepted batch gets the report exactly when it has no file to move or is a single file whose move succeeds, and then the files with a name are in place, otherwise an exception is raised after the first move; with fewer than 1,000,000 paths no search gives up. |
| Requests.Service.ModifyProcess | src/functions/function.cpp:323-377 | Without the old file, or when it cannot be removed, nothing changes; otherwise the old file is removed, also when the upload that follows is refused, and the upload ends as stated for an upload. At most one response in all cases, and none only with an exception. |
| Requests.Service.RemoveProcess | src/functions/function.cpp:379-397 | Removes exactly the checked file, or answers that the check failed, or raises an exception without a response. |
| CacheProtocol.InvStep | src/functions/cache_action.cpp:50-63 | Every step of any worker, reader, writer or stopper keeps: only the holder of the mutex is inside, it stands on complete rows of one version, and published objects are exact and ordered. |
| CacheProtocol.PublishKeepsDocs | src/functions/action.cpp:374-438 | What is published equals the JSON of one whole version of the rows, no older than what was published before. |
| CacheRuns.CachedReads | src/functions/cache_action.cpp:50-63 | In every interleaving a reader sees the empty object or exactly one past version, and later never an older one. |
| CacheRuns.VersionsAreWrites | src/functions/cache_action.cpp:50-63 | The versions that can be seen are the rows of the beginning and what was written, in order; no round changes them. |
| CacheProgress.RunningCacheRefreshes | src/functions/cache_action.cpp:50-63 | In every fair infinite run of a cache that stays running without an error and has a worker that has not ended, what is in the database at any moment is published later, unless something newer is. |
| CacheProgress.ReadersCatchUp | src/functions/cache_action.cpp:50-63 | From some later moment on every look at the cache shows the rows of that moment or newer ones. |
| CacheProgress.StartedWorkerRefreshes | src/functions/cache_action.cpp:31-48 | Starting a worker is enough for that. |
| CacheRuns.RoundPublishes | src/functions/action.cpp:128-162 | A worker that is inside the mutex and is the only one to step, with all answers good, publishes the current rows whole, with status and message. |
| CacheRuns.FrozenAfterError | src/functions/action.cpp:164-168 | After the first failed round the error stays and nothing is published again in any continuation. |
| CacheRuns.FailedRoundFreezes | src/functions/action.cpp:128-168 | Whatever a round asks the server for: when that fails, the error is set and nothing is published in any continuation. |
| CacheRuns.AtMostOneMoreRound | src/functions/cache_action.cpp:52-62 | After set_state(false) each worker enters the mutex at most once more, and only if it had passed the test. |
| CacheRuns.RunningIsLastSet | src/functions/cache_action.cpp:50-63 | The loop condition is what set_state was last called with. |
| CacheRuns.RoundsAreEntries | src/functions/cache_action.cpp:52-58 | The rounds of a worker are its entries into the mutex. |
| CacheRuns.SomeWorkerCanStep | src/functions/cache_action.cpp:52-62 | No deadlock while a worker has not ended. |
| CacheRuns.WorkDecreases | src/functions/cache_action.cpp:52-62 | In a stopped cache every step of a worker decreases a well-founded measure over all workers and the rows left. |
| CacheRuns.StoppedWorkersEnd | src/functions/cache_action.cpp:50-63 | After set_state(false) all workers end in every fair infinite interleaving. |
| AsyncProtocol.SafeIffAtMostOneThread | src/functions/action.cpp:34-46 | In all interleavings of threads, launches and the owner's own statements the destructor returns only after the last access of every thread, exactly when no thread is started, or a single one and no statement of the owner succeeds after that. |
| AsyncProtocol.RunWithOneThread | src/functions/action.cpp:252-261 | The invariant of such runs: the flag is set only by the thread's last access, and the destructor has not returned without it. |
| AsyncProtocol.OneAtATimeIsSafe | src/functions/action.cpp:284-294 | Any number of threads is safe when every launch and every success of the owner comes after the end of the threads before: a launch takes back the flag of the last one. |
| AsyncProtocol.UnsafeWithMoreThreads | src/functions/action.cpp:284-294 | A concrete run for every larger number of threads in which the destructor returns too early. |
| AsyncProtocol.UnsafeWithOwner | src/functions/action.cpp:252-261 | A concrete run for every number of threads in which the owner's own statement sets the flag before the first thread has begun, and the destructor returns. |
| AsyncProtocol.DestructorCanReturn | src/functions/action.cpp:34-46 | After any run some continuation leaves the destructor exactly when the flag is set, nothing was launched, or a thread or the owner is left that may set it. |
| AsyncProtocol.ReturnsIffNeverDoomed | src/functions/action.cpp:34-46 | In every fair infinite interleaving, with any launches, statements and answers, the destructor returns exactly when there is no moment at which nobody is left to set the flag. |
| AsyncProtocol.FailedNeverDestroyed | src/functions/action.cpp:262-281 | With at most one thread, and no success of the owner's own after its launch: after a failed statement, whose error need not be supposed, or a thread that could not be started the destructor never returns, whatever follows. |
| AsyncProtocol.ErrorIffReported | src/functions/action.cpp:262-281 | In every run the error is set exactly when a launch, a statement of the owner or the report of a thread has failed, and it stays. |
| AsyncProtocol.ThreadsShow | src/functions/action.cpp:252-281 | A thread ends well exactly when its statement was answered well; it ends badly after a failure, or when it has found the error set. |
| AsyncProtocol.FailedThreadLeavesError | src/functions/action.cpp:262-281 | In every run a thread that ended badly has left the error set. |
| AsyncProtocol.FailingStatement | src/functions/action.cpp:262-281 | The run of one failing statement: the action is in error and the destructor never returns. |
| AsyncProtocol.RelaunchHangs | src/functions/action.cpp:284-305 | A run in which the only thread succeeds, a second launch fails, and the destructor never returns. |
| AsyncProtocol.SuccessIsDestroyed | src/functions/action.cpp:34-46 | When no launch and no statement fails, with any number of them, the destructor returns in every fair interleaving. |
| Sessions.SessionsManager.CreateSession | src/tools/sessions_manager.cpp:102-147 | Ends within one draw more than there are sessions; the new key was not in memory; nothing else in memory changes; the row is there exactly when the insert succeeded; no two sessions ever got the same id. |
| Sessions.SessionsManager.DrawId | src/tools/sessions_manager.cpp:102-117 | The loop ends, within one draw more than there are sessions, at the first id that is not in memory. |
| Sessions.SessionsManager.DeleteSession | src/tools/sessions_manager.cpp:149-175 | Removes the session and, if the delete succeeded, its row; an unknown id changes nothing, also in the database. |
| Sessions.SessionsManager.ReadSessions | src/tools/sessions_manager.cpp:44-87 | Adds exactly the unexpired rows that are not in memory yet; a failed query adds nothing. |
| Sessions.SessionsManager.Restart | src/tools/sessions_manager.cpp:23-51 | After the start of the program the memory holds exactly the unexpired rows, or nothing when the query failed. |
| Sessions.SessionsManager.StartSession | src/handlers/login_handler.cpp:64-107 | A new session exactly for a known user whose cookie is missing, empty or not in memory; its cookie then stands for that user and all other cookies for whom they stood. |
| Sessions.SessionsManager.EndSession | src/handlers/login_handler.cpp:109-146 | The cookie stands for nobody afterwards, all others as before. |
| SessionRuns.MemoryAgainstRows | src/tools/sessions_manager.cpp:102-175 | In every run: in memory without a row exactly after a failed insert that nothing has undone; a row without a session in memory exactly when a failed delete or a restart dropped it and no later reading of the sessions has loaded it. |
| SessionRuns.ManagerAgainstTable | src/tools/sessions_manager.cpp:44-175 | The same of a manager object and its table after any calls, whose history every method keeps. |
| SessionRuns.ContentsKept | src/tools/sessions_manager.cpp:63-84 | Each key is its session's id, and memory and rows hold what the creating call put there. |
| SessionRuns.RestartYieldsAlive | src/tools/sessions_manager.cpp:53-84 | Without failed writes a restart yields exactly the sessions created, not deleted and not expired. |
| SessionRuns.LogoutUndoneByRestart | src/tools/sessions_manager.cpp:149-175 | A logged out session is back after a restart exactly when its row was there, the delete failed and it has not expired. |
| SessionRuns.LoggedOutAndBack | src/tools/sessions_manager.cpp:149-175 | A run of a login, a logout whose delete fails, and a restart, after which the session is in memory again. |
| Permissions.PermissionsManager.LoadPermissions | src/security/permissions_manager.cpp:74-131 | The list is that of the last reply only: empty after a failed query, and the rows before the first bad one otherwise; when the reply is the join of the two tables, the list grants exactly what the tables grant, for all routes, users and actions. |
| Permissions.PermissionsManager.ReadPermission | src/security/permissions_manager.cpp:104-127 | The permission of a row, or nothing when a field is NULL, missing or of the wrong type. |
| Permissions.LoadedUntilBad | src/security/permissions_manager.cpp:102-128 | The list is that of the rows before the first bad one, in order. |
| Permissions.PermissionsManager.FindPermission | src/security/permissions_manager.cpp:41-63 | The first permission for route, user and mapped action; none exactly when the list has none. |
| Permissions.PermissionsManager.VerifyRoutesPermissions | src/security/security_verification.cpp:29-60 | Access is granted exactly when everything is enabled or the list grants it, with the action map as it is, also before the first load. |
| Permissions.PermissionsManager.FillActionTypeMap | src/security/permissions_manager.cpp:65-72 | The four names that are mapped, each to an action type of its own; every other name counts as reading. |
| Permissions.ListAgreesWithTables | src/security/permissions_manager.cpp:86-130 | The loaded rows of the join grant access exactly when the user's group has a permission row for the endpoint and a name that counts as the action's name: POST, PUT and DEL count for themselves, every other name as GET. |
| Permissions.GrantedByName | src/security/permissions_manager.cpp:65-72 | Over tables with the four names, an action of one of them is granted by a row with that very name only, and every other name as GET is. |
| FileManagers.FileManager.CheckFile | src/files/file_manager.cpp:110-154 | An upload path must be free; the other operations go on exactly with a path that exists and, with index.html added for a directory, exists and is readable. |
| FileManagers.FileManager.ChangePathAndFilename | src/files/file_manager.cpp:305-329 | Finds the first accepted candidate; fails exactly when none of the first 1,000,000 is accepted, after 1,000,001 tries; never fails for an upload when names differ and fewer than 1,000,000 paths exist. |
| FileManagers.FreshNameFound | src/files/file_manager.cpp:305-329 | The search succeeds when the candidates are distinct and fewer than 1,000,000 paths exist. |
| FileManagers.FileManager.HandlePart | src/files/file_manager.cpp:52-85 | The part's bytes lie at a fresh temporary path apart from all others; no file is overwritten; an exception means that all 1,000,000 candidates of a search exist, leaves the list of files alone, and, if names do not coincide, needs nearly 1,000,000 paths. |
| FileManagers.FileManager.StageFiles | src/functions/function.cpp:293-300 | Every file of the batch gets a free target, or a search gave up because all its candidates exist; the received parts stay where they are; when names do not coincide no two files get the same target. |
| FileManagers.FileManager.ProcessContentLength | src/files/file_manager.cpp:213-225 | Completes exactly when all targets exist. |
| FileManagers.FileManager.VerifyMaxFileSize | src/files/file_manager.cpp:227-238 | True exactly when no recorded length exceeds the limit. |
| FileManagers.FileManager.MoveFile | src/files/file_manager.cpp:268-272 | It fails exactly when the move fails or the file is missing; otherwise the part leaves its temporary path and lies at its target, and of a staged batch no other part and no older file is touched. |
| FileManagers.FileManager.TransferFile | src/files/file_manager.cpp:266-279 | After one move the sizes are there only if the batch has a single file; the parts of a staged batch are conserved either way. |
| FileManagers.FileManager.UploadFile | src/files/file_manager.cpp:260-283 | However it ends, each part of a staged batch lies at exactly one of its two paths and older files are untouched; it completes exactly without a file to move or with a single one that can be moved; otherwise exactly the first file with a name has moved, unless its move failed. |
| FileManagers.TwoFileUpload | src/files/file_manager.cpp:260-283 | Two files with names are received and staged; the upload raises an exception with the first in place and the second still at its temporary path. |
| ReplaceText.Find | src/files/file_manager.cpp:338-338 | The first occurrence at or after a position, or none exactly when there is none. |
| ReplaceText.Replace | src/files/file_manager.cpp:331-345 | The loop terminates for every non-empty `what` and yields the leftmost replacement without overlaps and its count. |
| ReplaceText.ReplacedLength | src/files/file_manager.cpp:331-345 | The length changes by the count times the difference of the two lengths. |
| ReplaceText.OneCharacter | src/files/file_manager.cpp:60-61 | A replaced character is left exactly when the text had it and the replacement contains it; every other character stays. |
| ReplaceText.ReplaceBack | src/files/file_manager.cpp:331-345 | Replacing one character by another and back restores the text exactly when the other was not in it. |
| Routes.Route.constructor | src/tools/route.cpp:37-43 | The route's string is the joined segments; it is an endpoint exactly when the first segment is "api". |
| Routes.Route.SegmentsToString | src/tools/route.cpp:68-76 | The loop yields the joined segments. |
| Routes.SplitJoin | src/tools/route.cpp:68-76 | Cutting at the slashes gives back the segments. |
| Routes.JoinConcat | src/tools/route.cpp:68-76 | The string of no segments is empty, that of one has a slash before it, and that of two lists is theirs side by side. |
| Routes.JoinInjective | src/tools/route.cpp:68-76 | Lists of slash-free segments have the same joined string exactly when they are the same. |
| Routes.Route.EqualsMeansSegments | src/tools/route.cpp:78-81 | Routes of slash-free segments are equal exactly when their segments are. |
| Routes.FunctionsManager.AddFunction | src/functions/functions_manager.cpp:11-16 | Inserts without overwriting: under every endpoint stands the first function added for it. |
| Routes.FunctionsManager.IdentifyRoute | src/handlers/root_handler.cpp:163-183 | The first function added under the requested route, if its method matches, and nothing otherwise. |
| Routes.FirstBySegments | src/handlers/root_handler.cpp:163-183 | With joined endpoints, requests are answered by the first function registered under the same segments; later ones are never found. |

## Left out

- Requests.Service.ModifyProcess: where the parts lie is stated for temporary files outside the base directory; inside it, the file that is removed could be a part that was just received.
- Requests.Service.ProcessAsFile: which extensions are supported is an answer of the environment; the extension table adds only look-ups.
- FileManagers.FileManager.ProcessContentLength: does not record the lengths it asks for, which afterwards only appear in the report and in a header.
- Permissions.ListAgreesWithTables: the rows are those of the join with no NULL and the expected types; for other rows LoadPermissions states what is kept.
- The comparison operators of DValue, which no modelled operation calls.
- Results::Last_, whose unsigned arithmetic is not total.
- The path of ReadSessions_ that unlocks its mutex twice; rows of the sessions table are taken as not NULL.
- Custom processes, form and file parameters of a request, settings, YAML, SSL, email, the HTTP client and web sockets.
- Parsing of URIs and of paths; routes start from segment lists, and Poco is not part of this model.
- The mutexes inside MakeResults_ and CreateJSONResult_, which the mutex around a cached round already covers.
- What the owner's own calls after a launch do to the statement, the bindings and the rows that a thread uses; only the flags and the error are modelled.
- The expiry of a session in memory, which the code does not check.
- The width of integers: no modelled operation computes with the values of cells.
