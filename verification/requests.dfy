/** Answering a request (src/functions/function.cpp: Process_ and the processes for files). */
module Requests {
  import opened Http
  import opened Wrappers
  import opened Query
  import opened Json
  import opened Pipeline
  import opened Actions
  import opened Functions
  import opened FileManagers

  datatype Status = OK | BadRequest | NotFound

  /** What is sent: JSON results, a JSON message, an HTML page, the content of a file, or the report of an upload. */
  datatype Response =
    | Results(json: JsonObject)
    | Message(status: Status, text: string)
    | Page(status: Status, text: string)
    | Content(bytes: Bytes)
    | Report

  /** The response channel, with everything that was sent on it. */
  class Exchange {
    var sent: seq<Response>

    constructor ()
      ensures sent == []
    {
      sent := [];
    }

    method Send(r: Response)
      modifies this
      ensures sent == old(sent) + [r]
    {
      sent := sent + [r];
    }
  }

  /** The answers of the environment that the code does not determine. */
  datatype Environment = Environment(
    supported: string -> bool, moveFails: nat -> bool, removeFails: nat -> bool)

  const UNPROCESSED := Page(BadRequest, "The file cannot be processed.")
  const UNSUPPORTED := Page(BadRequest, "Requested file is not supported.")
  const TOO_LARGE := Page(BadRequest, "The requested file exceeds the file size limit.")
  const BAD_CHECK := Page(NotFound, "Requested file bad check.")
  const BAD_METHOD := "The client provided a bad HTTP method."

  /** The bytes of a readable path; reading a directory gives nothing. */
  function BytesAt(nodes: Nodes, path: string): Bytes {
    if path in nodes && nodes[path].Data? then nodes[path].bytes else []
  }

  class Service {
    const function_: Function
    const files: FileManager
    const exchange: Exchange
    const removeFileOnModify: bool
    /** The setting max_file_size. */
    const maxFileSize: int

    constructor (function_: Function, files: FileManager, exchange: Exchange, removeFileOnModify: bool,
                 maxFileSize: int)
      ensures this.function_ == function_ && this.files == files && this.exchange == exchange
      ensures this.removeFileOnModify == removeFileOnModify && this.maxFileSize == maxFileSize
    {
      this.function_, this.files, this.exchange := function_, files, exchange;
      this.removeFileOnModify, this.maxFileSize := removeFileOnModify, maxFileSize;
    }

    /** The path of a requested file. */
    function Target(filepath: string): string {
      files.directoryBase + "/" + filepath
    }

    /** The answer to a download: the content of a readable and supported file. */
    function DownloadReply(nodes: Nodes, filepath: string, env: Environment): Response {
      match Check(nodes, Download, Target(filepath))
      case None => BAD_CHECK
      case Some(path) => if env.supported(path) then Content(BytesAt(nodes, path)) else UNSUPPORTED
    }

    /** Checks the requested file, and sends its content; no exception can be raised before the response. */
    method DownloadProcess(filepath: string, env: Environment)
      requires files.files == []
      modifies files`operation, files`files, exchange
      ensures exchange.sent == old(exchange.sent) + [DownloadReply(files.system.nodes, filepath, env)]
      ensures exchange.sent == old(exchange.sent) +
                match Check(files.system.nodes, Download, files.directoryBase + "/" + filepath)
                case None => [Page(NotFound, "Requested file bad check.")]
                case Some(path) =>
                  if !env.supported(path) then [Page(BadRequest, "Requested file is not supported.")]
                  else if files.system.nodes[path].Data? then [Content(files.system.nodes[path].bytes)]
                  else [Content([])]
      ensures files.Unmeasured()
    {
      files.operation := Download;
      var ok, checked := files.CheckFile(Target(filepath));
      files.files := [UploadedFile("file", filepath, checked, "", 0)];
      if !ok {
        exchange.Send(BAD_CHECK);
        return;
      }
      if !env.supported(files.files[0].requested) {
        exchange.Send(UNSUPPORTED);
        return;
      }
      var sized := files.ProcessContentLength();
      assert sized.Completed?;
      exchange.Send(Content(BytesAt(files.system.nodes, files.files[0].requested)));
    }

    /** Checks the requested file and removes it; a failing removal raises an exception before any response. */
    method RemoveProcess(filepath: string, env: Environment) returns (ending: Ending)
      requires files.files == []
      modifies files`operation, files`files, files.system, exchange
      ensures match Check(old(files.system.nodes), Remove, files.directoryBase + "/" + filepath)
              case None =>
                && ending.Completed? && files.system.nodes == old(files.system.nodes)
                && exchange.sent == old(exchange.sent) + [Page(NotFound, "Requested file bad check.")]
              case Some(path) =>
                && (ending.Raised? <==> env.removeFails(0))
                && files.system.nodes
                   == (if ending.Raised? then old(files.system.nodes) else old(files.system.nodes) - {path})
                && exchange.sent == old(exchange.sent) + if ending.Raised? then [] else [Message(OK, "Ok.")]
      ensures files.Unmeasured()
    {
      files.operation := Remove;
      var ok, checked := files.CheckFile(Target(filepath));
      files.files := [UploadedFile("file", filepath, checked, "", 0)];
      if !ok {
        exchange.Send(BAD_CHECK);
        return Completed;
      }
      if env.removeFails(0) { return Raised; }
      files.system.nodes := files.system.nodes - {checked};
      exchange.Send(Message(OK, "Ok."));
      ending := Completed;
    }

    /** The answer to an upload whose files all got a target. */
    function UploadVerdict(env: Environment): Response
      reads files
    {
      if exists i :: 0 <= i < |files.files| && !env.supported(files.files[i].requested) then UNSUPPORTED
      else if exists i :: 0 <= i < |files.files| && files.files[i].length > maxFileSize then TOO_LARGE
      else Report
    }

    /** What is sent is one more response, or nothing when an exception was raised. */
    ghost predicate AtMostOne(ending: Ending, sent: seq<Response>)
      reads exchange
    {
      match ending
      case Raised => exchange.sent == sent
      case Completed => |exchange.sent| == |sent| + 1 && exchange.sent[..|sent|] == sent
    }

    /**
     * How any upload over some nodes ends: a refusal names its reason, which for a missing target is a search that gave
     * up, and moves nothing; an exception needs an accepted batch with a file to move.
     */
    ghost predicate UploadEnded(ending: Ending, env: Environment, nodes: Nodes, sent: seq<Response>)
      reads files, files.system, exchange
    {
      && AtMostOne(ending, sent)
      && match ending
         case Raised => UploadVerdict(env) == Report && !Unnamed(files.files)
         case Completed =>
           var reply := exchange.sent[|sent|];
           && (reply == UploadVerdict(env) || (reply == UNPROCESSED && files.GaveUp()))
           && (reply != Report || Unnamed(files.files) ==> files.system.nodes == nodes)
    }

    /**
     * How it ends when no generated names coincide: each part lies at exactly one path and older files are untouched;
     * an accepted batch gets the report exactly when it can be completed, and its files with a name are then in place.
     */
    ghost predicate UploadAnswered(ending: Ending, env: Environment, initial: Nodes, parts: seq<Bytes>, nodes: Nodes,
                                   sent: seq<Response>)
      reads files, files.system, exchange
    {
      && PartsKept(initial, parts)
      && match ending
         case Raised => !files.CanComplete(env.moveFails) && files.MovedFirst(env.moveFails, parts)
         case Completed =>
           && |exchange.sent| == |sent| + 1
           && var reply := exchange.sent[|sent|];
              && (|nodes| < MAX_TRIES ==> reply != UNPROCESSED)
              && (reply == Report ==> files.CanComplete(env.moveFails) && InPlace(parts))
    }

    /** Every part lies at its temporary path or its target, and the older files are as they were. */
    ghost predicate PartsKept(initial: Nodes, parts: seq<Bytes>)
      reads files, files.system
    {
      |files.files| == |parts| && (files.Received(initial, parts) || files.Conserved(initial, parts))
    }

    /** The parts that have a name lie at their targets, and only those. */
    ghost predicate InPlace(parts: seq<Bytes>)
      reads files, files.system
    {
      && |files.files| == |parts|
      && forall i :: 0 <= i < |parts| ==> (files.InTarget(i, parts[i]) <==> files.files[i].name != "")
    }

    /** The first steps of an upload: every received file gets a fresh target, or the request is refused. */
    method StageParts(ghost initial: Nodes, ghost parts: seq<Bytes>) returns (staged: bool)
      modifies files`operation, files`drawn, files`files, exchange
      ensures exchange.sent == old(exchange.sent) + if staged then [] else [UNPROCESSED]
      ensures old(files.Received(initial, parts)) ==> files.Received(initial, parts)
      ensures !staged ==> files.GaveUp()
      ensures staged && files.NamesDiffer() && old(files.Received(initial, parts)) ==> files.Staged(initial, parts)
      ensures files.NamesDiffer() && |files.system.nodes| < MAX_TRIES ==> staged
      ensures old(files.Unmeasured()) ==> files.Unmeasured()
    {
      files.operation := Upload;
      staged := files.StageFiles(initial, parts);
      if !staged {
        exchange.Send(UNPROCESSED);
      }
    }

    /** Gives every received file a fresh target, checks the batch, and moves it. */
    method UploadProcess(env: Environment, ghost initial: Nodes, ghost parts: seq<Bytes>) returns (ending: Ending)
      modifies files`operation, files`drawn, files`files, files.system, exchange
      ensures UploadEnded(ending, env, old(files.system.nodes), old(exchange.sent))
      ensures files.NamesDiffer() && old(files.Received(initial, parts)) ==>
                UploadAnswered(ending, env, initial, parts, old(files.system.nodes), old(exchange.sent))
      ensures old(files.Unmeasured()) ==> files.Unmeasured()
    {
      var staged := StageParts(initial, parts);
      if !staged { return Completed; }
      ending := UploadBatch(env, initial, parts);
    }

    /** The steps of UploadProcess after every file got its target. */
    method UploadBatch(env: Environment, ghost initial: Nodes, ghost parts: seq<Bytes>) returns (ending: Ending)
      modifies files.system, exchange
      ensures UploadEnded(ending, env, old(files.system.nodes), old(exchange.sent))
      ensures old(files.Staged(initial, parts)) ==>
                UploadAnswered(ending, env, initial, parts, old(files.system.nodes), old(exchange.sent))
      ensures ending.Completed? ==> exchange.sent[|old(exchange.sent)|] != UNPROCESSED
    {
      var ok := files.IsSupported(env.supported);
      if !ok {
        exchange.Send(UNSUPPORTED);
        return Completed;
      }
      ok := files.VerifyMaxFileSize(maxFileSize);
      if !ok {
        exchange.Send(TOO_LARGE);
        return Completed;
      }
      ending := files.UploadFile(env.moveFails, initial, parts);
      if ending.Completed? {
        exchange.Send(Report);
      }
    }

    /** The directory for temporary files is not inside the base directory. */
    ghost predicate TempOutsideBase()
      reads files
    {
      forall f :: f in files.files ==> !(files.directoryBase + "/" <= f.tmp)
    }

    /** What is left of some nodes when the old file of a modification is removed, if it is. */
    function WithoutOld(nodes: Nodes, left: Nodes, filepath: string, env: Environment): Nodes {
      if !removeFileOnModify || env.removeFails(0) then left
      else
        match Check(nodes, Remove, Target(filepath))
        case None => left
        case Some(path) => left - {path}
    }

    /** The modification goes on to the upload. */
    predicate Replaces(nodes: Nodes, filepath: string, env: Environment) {
      removeFileOnModify ==> Check(nodes, Remove, Target(filepath)).Some? && !env.removeFails(0)
    }

    /**
     * Removes the old file, if so configured, and then uploads like UploadProcess; the old file is gone even when the
     * upload that follows is refused.
     */
    method ModifyProcess(filepath: string, env: Environment, ghost initial: Nodes, ghost parts: seq<Bytes>)
      returns (ending: Ending)
      modifies files`operation, files`drawn, files`files, files.system, exchange
      ensures AtMostOne(ending, old(exchange.sent))
      ensures var nodes, sent := old(files.system.nodes), old(exchange.sent);
              if Replaces(nodes, filepath, env) then
                UploadEnded(ending, env, WithoutOld(nodes, nodes, filepath, env), sent)
              else
                && files.system.nodes == nodes && files.files == old(files.files)
                && (ending.Raised? <==> Check(nodes, Remove, Target(filepath)).Some?)
                && (ending.Completed? ==> exchange.sent == sent + [BAD_CHECK])
      ensures var nodes, sent := old(files.system.nodes), old(exchange.sent);
              (files.NamesDiffer() && old(files.Received(initial, parts) && TempOutsideBase())
               && Replaces(nodes, filepath, env)) ==>
                UploadAnswered(ending, env, WithoutOld(nodes, initial, filepath, env), parts,
                               WithoutOld(nodes, nodes, filepath, env), sent)
      ensures old(files.Unmeasured()) ==> files.Unmeasured()
    {
      ghost var kept := WithoutOld(files.system.nodes, initial, filepath, env);
      if removeFileOnModify {
        var removed;
        removed, ending := RemoveOld(filepath, env, initial, parts);
        if !removed { return; }
      }
      ending := UploadProcess(env, kept, parts);
    }

    /** The first steps of a modification: the old file is checked and removed with a copy of the file manager. */
    method RemoveOld(filepath: string, env: Environment, ghost initial: Nodes, ghost parts: seq<Bytes>)
      returns (removed: bool, ending: Ending)
      requires removeFileOnModify
      modifies files.system, exchange
      ensures removed == Replaces(old(files.system.nodes), filepath, env)
      ensures files.system.nodes == WithoutOld(old(files.system.nodes), old(files.system.nodes), filepath, env)
      ensures exchange.sent == old(exchange.sent) + if removed || ending.Raised? then [] else [BAD_CHECK]
      ensures !removed ==> (ending.Raised? <==> Check(old(files.system.nodes), Remove, Target(filepath)).Some?)
      ensures old(files.Received(initial, parts) && TempOutsideBase()) ==>
                files.Received(WithoutOld(old(files.system.nodes), initial, filepath, env), parts)
    {
      var remover :=
        new FileManager(files.system, files.names, files.directoryBase, files.directoryForTempFiles, Remove);
      var ok, checked := remover.CheckFile(Target(filepath));
      if !ok {
        exchange.Send(BAD_CHECK);
        return false, Completed;
      }
      if env.removeFails(0) { return false, Raised; }
      OldIsNoPart(filepath, checked);
      files.system.nodes := files.system.nodes - {checked};
      return true, Completed;
    }

    /** With the temporary files outside the base directory the old file is not one of the received parts. */
    lemma OldIsNoPart(filepath: string, checked: string)
      requires checked == PathUsed(files.system.nodes, Target(filepath))
      ensures TempOutsideBase() ==> forall f :: f in files.files ==> f.tmp != checked
    {
      assert files.directoryBase + "/" <= Target(filepath) <= checked;
    }

    /** What the catch clauses of Process_ do: an exception that left no response is answered with the error text. */
    method Catch(ending: Ending, ghost before: seq<Response>)
      requires AtMostOne(ending, before)
      modifies exchange
      ensures |exchange.sent| == |before| + 1 && exchange.sent[..|before|] == before
      ensures ending.Raised? ==> exchange.sent[|before|] == Message(BadRequest, function_.errorMessage)
      ensures ending.Completed? ==> exchange.sent == old(exchange.sent)
    {
      if ending.Raised? {
        exchange.Send(Message(BadRequest, function_.errorMessage));
      }
    }

    /** Process_ for JSON functions: the results of the run, or the text of its failure. */
    method ProcessAsJSON(ghost defs: seq<ActionDef>)
      requires Separate(function_.actions) && function_.Stage(defs, Prior(defs), 0)
      modifies function_, function_.database, function_.Objects(), exchange
      ensures var out := Run(function_.database.server, defs, EMPTY_OBJECT, old(function_.database.log));
              && function_.database.log == out.log
              && exchange.sent == old(exchange.sent) +
                   [if out.failure.Some? then Message(BadRequest, out.failure.value) else Results(out.json)]
    {
      var ok, json := function_.ProcessJSON(EMPTY_OBJECT, defs);
      if !ok && function_.error {
        exchange.Send(Message(BadRequest, function_.errorMessage));
        return;
      }
      exchange.Send(Results(json));
    }

    /**
     * A request with a JSON body for a JSON function: its entries give the values of the parameters, which all actions
     * share, and the answer is that of the run over copies of the actions with the requested values.
     */
    method HandleJSON(entries: seq<JsonEntry>, ghost defs: seq<ActionDef>, ghost prior: map<string, Value>)
      requires Separate(function_.actions) && function_.AllAs(defs) && function_.Provides(prior)
      modifies function_, function_.database, function_.Objects(), exchange
      ensures var asked := RequestedActions(defs, entries, prior);
              var out := Run(function_.database.server, asked, EMPTY_OBJECT, old(function_.database.log));
              && function_.database.log == out.log
              && exchange.sent == old(exchange.sent) +
                   [if out.failure.Some? then Message(BadRequest, out.failure.value) else Results(out.json)]
    {
      ghost var asked := RequestedActions(defs, entries, prior);
      assert exchange !in function_.Objects() && function_.database !in function_.Objects();
      function_.IdentifyRequest(entries, defs, prior);
      function_.AllAsIsStage(asked);
      ProcessAsJSON(asked);
    }

    /**
     * Process_ for file functions: one response, whatever the actions, the checks and the file system answer; and the
     * parts of an upload are kept.
     */
    method ProcessAsFile(verb: Verb, env: Environment, ghost defs: seq<ActionDef>, ghost initial: Nodes,
                         ghost parts: seq<Bytes>)
      requires Separate(function_.actions) && function_.Stage(defs, Prior(defs), 0)
      requires verb.GET? || verb.DEL? ==> files.files == []
      modifies function_, function_.database, function_.Objects()
      modifies files`operation, files`drawn, files`files, files.system, exchange
      ensures var (log, found) := FileRun(function_.database.server, defs, "", old(function_.database.log));
              && function_.database.log == log
              && Answered(found, verb, env, old(files.system.nodes), old(exchange.sent), old(function_.errorMessage))
              && (old(Uploads(verb, initial, parts)) ==>
                    Kept(found, verb, env, old(files.system.nodes), initial, parts,
                         exchange.sent[|old(exchange.sent)|]))
    {
      var found := RunActions(defs);
      Answer(found, verb, env, initial, parts);
    }

    /** The actions run before anything of the request is answered. */
    method RunActions(ghost defs: seq<ActionDef>) returns (found: FileEnding)
      requires Separate(function_.actions) && function_.Stage(defs, Prior(defs), 0)
      modifies function_, function_.database, function_.Objects()
      ensures unchanged(files, files.system, exchange)
      ensures (function_.database.log, found)
           == FileRun(function_.database.server, defs, "", old(function_.database.log))
      ensures function_.errorMessage == if found.Refused? then found.text else old(function_.errorMessage)
    {
      assert files !in function_.Objects() && files.system !in function_.Objects() && exchange !in function_.Objects();
      found := function_.ProcessFile("", defs);
    }

    /** Exactly one response was added, and it is the one for the outcome of the actions and for the method. */
    ghost predicate Answered(found: FileEnding, verb: Verb, env: Environment, nodes: Nodes, sent: seq<Response>,
                             errorMessage: string)
      reads files, files.system, exchange
    {
      && |exchange.sent| == |sent| + 1 && exchange.sent[..|sent|] == sent
      && match found
         case Refused(text) => exchange.sent[|sent|] == Message(BadRequest, text) && files.system.nodes == nodes
         case NotAString => exchange.sent[|sent|] == Message(BadRequest, errorMessage) && files.system.nodes == nodes
         case PathFound(path) => VerbAnswered(exchange.sent[|sent|], verb, path, env, nodes, errorMessage)
    }

    /** The response is the one for the method, and the file system is as the method leaves it. */
    ghost predicate VerbAnswered(reply: Response, verb: Verb, path: string, env: Environment, nodes: Nodes,
                                 errorMessage: string)
      reads files, files.system
    {
      match VerbReply(nodes, verb, path, env, errorMessage)
      case Some(r) => reply == r && files.system.nodes == NodesAfter(nodes, verb, path, env)
      case None => UploadReplied(reply, env, UploadBase(nodes, verb, path, env), errorMessage)
    }

    /** The request brings files whose parts were received at paths that no removal can reach. */
    ghost predicate Uploads(verb: Verb, initial: Nodes, parts: seq<Bytes>)
      reads files, files.system
    {
      && files.NamesDiffer() && files.Received(initial, parts)
      && (verb.POST? || (verb.PUT? && TempOutsideBase()))
    }

    /**
     * After an upload every part lies at one of its paths, and all older files but the one that a modification removes
     * are untouched; the response tells what has moved.
     */
    ghost predicate Kept(found: FileEnding, verb: Verb, env: Environment, nodes: Nodes, initial: Nodes,
                         parts: seq<Bytes>, reply: Response)
      reads files, files.system
    {
      && PartsKept(if verb.PUT? && found.PathFound? then WithoutOld(nodes, initial, found.path, env) else initial,
                   parts)
      && (found.PathFound? && (verb.POST? || Replaces(nodes, found.path, env)) ==>
            UploadOutcome(reply, env, parts, UploadBase(nodes, verb, found.path, env)))
    }

    method Answer(found: FileEnding, verb: Verb, env: Environment, ghost initial: Nodes, ghost parts: seq<Bytes>)
      requires verb.GET? || verb.DEL? ==> files.files == []
      requires found.Refused? ==> function_.errorMessage == found.text
      modifies files`operation, files`drawn, files`files, files.system, exchange
      ensures Answered(found, verb, env, old(files.system.nodes), old(exchange.sent), function_.errorMessage)
      ensures old(Uploads(verb, initial, parts)) ==>
                Kept(found, verb, env, old(files.system.nodes), initial, parts, exchange.sent[|old(exchange.sent)|])
      ensures old(files.Unmeasured()) ==> files.Unmeasured()
    {
      ghost var before := exchange.sent;
      match found {
        case Refused(_) =>
          exchange.Send(Message(BadRequest, function_.errorMessage));
        case NotAString =>
          Catch(Raised, before);
        case PathFound(path) =>
          ProcessVerb(verb, path, env, initial, parts);
      }
    }

    /** The answer when nothing is uploaded; an exception is answered with the error text. */
    function VerbReply(nodes: Nodes, verb: Verb, path: string, env: Environment, errorMessage: string)
      : Option<Response>
    {
      match verb
      case GET => Some(DownloadReply(nodes, path, env))
      case DEL =>
        Some(if Check(nodes, Remove, Target(path)).None? then BAD_CHECK
             else if env.removeFails(0) then Message(BadRequest, errorMessage) else Message(OK, "Ok."))
      case POST => None
      case PUT =>
        if Replaces(nodes, path, env) then None
        else Some(if Check(nodes, Remove, Target(path)).None? then BAD_CHECK else Message(BadRequest, errorMessage))
      case _ => Some(Message(BadRequest, BAD_METHOD))
    }

    /** The file system afterwards when nothing is uploaded. */
    function NodesAfter(nodes: Nodes, verb: Verb, path: string, env: Environment): Nodes {
      var checked := Check(nodes, Remove, Target(path));
      if verb.DEL? && checked.Some? && !env.removeFails(0) then nodes - {checked.value} else nodes
    }

    /** The file system over which an upload works. */
    function UploadBase(nodes: Nodes, verb: Verb, path: string, env: Environment): Nodes {
      if verb.PUT? then WithoutOld(nodes, nodes, path, env) else nodes
    }

    /**
     * The response to an upload over some nodes: a search for a target gave up, or the verdict on the batch, or, for
     * an accepted batch with a file to move, the text of an exception; a refusal moves nothing.
     */
    ghost predicate UploadReplied(reply: Response, env: Environment, nodes: Nodes, errorMessage: string)
      reads files, files.system
    {
      || (reply == UNPROCESSED && files.GaveUp() && files.system.nodes == nodes)
      || (reply == UploadVerdict(env) && (reply != Report || Unnamed(files.files) ==> files.system.nodes == nodes))
      || (reply == Message(BadRequest, errorMessage) && UploadVerdict(env) == Report && !Unnamed(files.files))
    }

    /**
     * What the response to an upload says: a refusal is true of some file, and the report and the error text are sent
     * only for batches that break no rule.
     */
    lemma UploadReplyMeans(reply: Response, env: Environment, nodes: Nodes, errorMessage: string)
      requires UploadReplied(reply, env, nodes, errorMessage)
      ensures reply in [
                Page(BadRequest, "The file cannot be processed."), Page(BadRequest, "Requested file is not supported."),
                Page(BadRequest, "The requested file exceeds the file size limit."), Report,
                Message(BadRequest, errorMessage)]
      ensures reply == Page(BadRequest, "The file cannot be processed.") ==> files.GaveUp()
      ensures reply == Page(BadRequest, "Requested file is not supported.") ==>
                exists i :: 0 <= i < |files.files| && !env.supported(files.files[i].requested)
      ensures reply == Page(BadRequest, "The requested file exceeds the file size limit.") ==>
                exists i :: 0 <= i < |files.files| && files.files[i].length > maxFileSize
      ensures reply.Report? || reply.Message? ==>
                forall i :: 0 <= i < |files.files| ==>
                  env.supported(files.files[i].requested) && files.files[i].length <= maxFileSize
      ensures reply.Page? ==> files.system.nodes == nodes
    {
      TextsDiffer();
    }

    lemma TextsDiffer()
      ensures UNPROCESSED != UNSUPPORTED && UNPROCESSED != TOO_LARGE && UNSUPPORTED != TOO_LARGE
    {
      assert |UNPROCESSED.text| == 29 && |UNSUPPORTED.text| == 32 && |TOO_LARGE.text| == 47;
    }

    /** The size limit refuses no upload: the length of a received file is 0 until it has been moved. */
    lemma NothingIsTooLarge(reply: Response, env: Environment, nodes: Nodes, errorMessage: string)
      requires UploadReplied(reply, env, nodes, errorMessage) && files.Unmeasured() && maxFileSize >= 0
      ensures reply != Page(BadRequest, "The requested file exceeds the file size limit.")
    {
      UploadReplyMeans(reply, env, nodes, errorMessage);
    }

    /** What the response to a request says, method by method, and what the request leaves behind. */
    lemma VerbReplyMeans(reply: Response, verb: Verb, path: string, env: Environment, nodes: Nodes,
                         errorMessage: string)
      requires VerbAnswered(reply, verb, path, env, nodes, errorMessage)
      ensures var target := files.directoryBase + "/" + path;
              match verb
              case GET => reply == DownloadReply(nodes, path, env) && files.system.nodes == nodes
              case DEL =>
                (match Check(nodes, Remove, target)
                 case None => reply == Page(NotFound, "Requested file bad check.") && files.system.nodes == nodes
                 case Some(p) =>
                   if env.removeFails(0) then reply == Message(BadRequest, errorMessage) && files.system.nodes == nodes
                   else reply == Message(OK, "Ok.") && files.system.nodes == nodes - {p})
              case POST => UploadReplied(reply, env, nodes, errorMessage)
              case PUT =>
                if !removeFileOnModify then UploadReplied(reply, env, nodes, errorMessage)
                else
                  (match Check(nodes, Remove, target)
                   case None => reply == Page(NotFound, "Requested file bad check.") && files.system.nodes == nodes
                   case Some(p) =>
                     if env.removeFails(0) then
                       reply == Message(BadRequest, errorMessage) && files.system.nodes == nodes
                     else UploadReplied(reply, env, nodes - {p}, errorMessage))
              case OPTIONS | HEAD | PATCH | NULL =>
                reply == Message(BadRequest, "The client provided a bad HTTP method.") && files.system.nodes == nodes
    {
    }

    /** When no names coincide, an accepted batch is reported or ends in an exception as its files and the moves say. */
    ghost predicate UploadOutcome(reply: Response, env: Environment, parts: seq<Bytes>, nodes: Nodes)
      reads files, files.system
    {
      && |files.files| == |parts|
      && (|nodes| < MAX_TRIES ==> reply != UNPROCESSED)
      && (reply == Report ==> files.CanComplete(env.moveFails) && InPlace(parts))
      && (reply.Message? ==> !files.CanComplete(env.moveFails) && files.MovedFirst(env.moveFails, parts))
    }

    /** The response that an ending leads to: the one that was sent, or that for the exception. */
    ghost predicate LeadsTo(ending: Ending, sent: seq<Response>, reply: Response)
      reads exchange, function_
    {
      match ending
      case Raised => exchange.sent == sent && reply == Message(BadRequest, function_.errorMessage)
      case Completed => exchange.sent == sent + [reply]
    }

    lemma EndedReplies(ending: Ending, env: Environment, nodes: Nodes, sent: seq<Response>, reply: Response)
      requires UploadEnded(ending, env, nodes, sent) && LeadsTo(ending, sent, reply)
      ensures UploadReplied(reply, env, nodes, function_.errorMessage)
    {
    }

    lemma AnsweredOutcome(ending: Ending, env: Environment, initial: Nodes, parts: seq<Bytes>, nodes: Nodes,
                          sent: seq<Response>, reply: Response)
      requires UploadAnswered(ending, env, initial, parts, nodes, sent) && UploadEnded(ending, env, nodes, sent)
      requires LeadsTo(ending, sent, reply)
      ensures PartsKept(initial, parts) && UploadOutcome(reply, env, parts, nodes)
    {
    }

    /** The upload of a request that replaces no file. */
    method ProcessPost(env: Environment, ghost initial: Nodes, ghost parts: seq<Bytes>)
      returns (ending: Ending, ghost reply: Response)
      modifies files`operation, files`drawn, files`files, files.system, exchange
      ensures LeadsTo(ending, old(exchange.sent), reply)
      ensures UploadReplied(reply, env, old(files.system.nodes), function_.errorMessage)
      ensures files.NamesDiffer() && old(files.Received(initial, parts)) ==>
                PartsKept(initial, parts) && UploadOutcome(reply, env, parts, old(files.system.nodes))
      ensures old(files.Unmeasured()) ==> files.Unmeasured()
    {
      ghost var nodes, sent := files.system.nodes, exchange.sent;
      ending := UploadProcess(env, initial, parts);
      reply := if ending.Raised? then Message(BadRequest, function_.errorMessage) else exchange.sent[|sent|];
      EndedReplies(ending, env, nodes, sent, reply);
      if UploadAnswered(ending, env, initial, parts, nodes, sent) {
        AnsweredOutcome(ending, env, initial, parts, nodes, sent, reply);
      }
    }

    /** The upload of a request that may replace a file. */
    method ProcessPut(path: string, env: Environment, ghost initial: Nodes, ghost parts: seq<Bytes>)
      returns (ending: Ending, ghost reply: Response)
      modifies files`operation, files`drawn, files`files, files.system, exchange
      ensures LeadsTo(ending, old(exchange.sent), reply)
      ensures VerbAnswered(reply, PUT, path, env, old(files.system.nodes), function_.errorMessage)
      ensures old(Uploads(PUT, initial, parts)) ==>
                Kept(PathFound(path), PUT, env, old(files.system.nodes), initial, parts, reply)
      ensures old(files.Unmeasured()) ==> files.Unmeasured()
    {
      ghost var nodes, sent := files.system.nodes, exchange.sent;
      ending := ModifyProcess(path, env, initial, parts);
      reply := if ending.Raised? then Message(BadRequest, function_.errorMessage) else exchange.sent[|sent|];
      if Replaces(nodes, path, env) {
        ghost var base, kept := WithoutOld(nodes, nodes, path, env), WithoutOld(nodes, initial, path, env);
        EndedReplies(ending, env, base, sent, reply);
        if UploadAnswered(ending, env, kept, parts, base, sent) {
          AnsweredOutcome(ending, env, kept, parts, base, sent, reply);
        }
      }
    }

    /** The two methods that upload. */
    method ProcessParts(verb: Verb, path: string, env: Environment, ghost initial: Nodes, ghost parts: seq<Bytes>)
      returns (ending: Ending, ghost reply: Response)
      requires verb.POST? || verb.PUT?
      modifies files`operation, files`drawn, files`files, files.system, exchange
      ensures LeadsTo(ending, old(exchange.sent), reply)
      ensures VerbAnswered(reply, verb, path, env, old(files.system.nodes), function_.errorMessage)
      ensures old(Uploads(verb, initial, parts)) ==>
                Kept(PathFound(path), verb, env, old(files.system.nodes), initial, parts, reply)
      ensures old(files.Unmeasured()) ==> files.Unmeasured()
    {
      if verb.POST? {
        ending, reply := ProcessPost(env, initial, parts);
      } else {
        ending, reply := ProcessPut(path, env, initial, parts);
      }
    }

    /** The methods that do not upload. */
    method ProcessPlain(verb: Verb, path: string, env: Environment) returns (ending: Ending, ghost reply: Response)
      requires !verb.POST? && !verb.PUT?
      requires verb.GET? || verb.DEL? ==> files.files == []
      modifies files`operation, files`files, files.system, exchange
      ensures LeadsTo(ending, old(exchange.sent), reply)
      ensures VerbAnswered(reply, verb, path, env, old(files.system.nodes), function_.errorMessage)
      ensures old(files.Unmeasured()) ==> files.Unmeasured()
    {
      ghost var before := exchange.sent;
      ending := Completed;
      match verb {
        case GET => DownloadProcess(path, env);
        case DEL => ending := RemoveProcess(path, env);
        case HEAD | OPTIONS | PATCH | NULL => exchange.Send(Message(BadRequest, BAD_METHOD));
      }
      reply := if ending.Raised? then Message(BadRequest, function_.errorMessage) else exchange.sent[|before|];
    }

    /** The switch over the HTTP method. */
    method ProcessVerb(verb: Verb, path: string, env: Environment, ghost initial: Nodes, ghost parts: seq<Bytes>)
      requires verb.GET? || verb.DEL? ==> files.files == []
      modifies files`operation, files`drawn, files`files, files.system, exchange
      ensures |exchange.sent| == |old(exchange.sent)| + 1 && exchange.sent[..|old(exchange.sent)|] == old(exchange.sent)
      ensures VerbAnswered(exchange.sent[|old(exchange.sent)|], verb, path, env, old(files.system.nodes),
                           function_.errorMessage)
      ensures old(Uploads(verb, initial, parts)) ==>
                Kept(PathFound(path), verb, env, old(files.system.nodes), initial, parts,
                     exchange.sent[|old(exchange.sent)|])
      ensures old(files.Unmeasured()) ==> files.Unmeasured()
    {
      ghost var before := exchange.sent;
      var ending;
      ghost var reply;
      if verb.POST? || verb.PUT? {
        ending, reply := ProcessParts(verb, path, env, initial, parts);
      } else {
        ending, reply := ProcessPlain(verb, path, env);
      }
      Catch(ending, before);
      assert exchange.sent[|before|] == reply;
    }
  }
}
