/** Uploaded files between their temporary and their target paths (src/files/file_manager.cpp). */
module FileManagers {
  import opened Wrappers
  import opened ReplaceText
  import Sets

  type Bytes = seq<bv8>

  datatype Node = Directory(readable: bool) | Data(bytes: Bytes, readable: bool)

  type Nodes = map<string, Node>

  class FileSystem {
    var nodes: Nodes

    constructor (nodes: Nodes)
      ensures this.nodes == nodes
    {
      this.nodes := nodes;
    }
  }

  datatype OperationType = Download | Upload | Remove

  /** Files::File: the form field, the file name, the target path, the path of the temporary file, and the length. */
  datatype UploadedFile = UploadedFile(name: string, filename: string, requested: string, tmp: string, length: nat)

  /** How a member that may throw ends. */
  datatype Ending = Completed | Raised

  const MAX_TRIES := 1_000_000

  /** The path that stands for a path: a directory stands for its index.html. */
  function PathUsed(nodes: Nodes, path: string): string {
    if path in nodes && nodes[path].Directory? then path + "/index.html" else path
  }

  /** The path an operation may use for a path, if there is one. */
  function Check(nodes: Nodes, operation: OperationType, path: string): Option<string> {
    match operation
    case Upload => if path in nodes then None else Some(path)
    case _ =>
      var p := PathUsed(nodes, path);
      if path in nodes && p in nodes && nodes[p].readable then Some(p) else None
  }

  /** The k-th path that a search from the n-th generated name on looks at. */
  function Candidate(names: (nat, string) -> string, n: nat, directory: string, filename: string, change: bool, k: nat)
    : string
  {
    directory + "/" + if change then names(n + k, filename) else filename
  }

  class FileManager {
    const system: FileSystem
    /** GenerateName_: the n-th name generated for a file. */
    const names: (nat, string) -> string
    const directoryBase: string
    const directoryForTempFiles: string
    var operation: OperationType
    var drawn: nat
    var files: seq<UploadedFile>

    constructor (system: FileSystem, names: (nat, string) -> string, directoryBase: string,
                 directoryForTempFiles: string, operation: OperationType)
      ensures this.system == system && this.names == names && this.operation == operation && files == [] && drawn == 0
      ensures this.directoryBase == directoryBase && this.directoryForTempFiles == directoryForTempFiles
    {
      this.system, this.names, this.operation := system, names, operation;
      this.directoryBase, this.directoryForTempFiles := directoryBase, directoryForTempFiles;
      drawn, files := 0, [];
    }

    /**
     * CheckFile_: an upload needs a free path; the other operations need a readable one, and go on with the index.html
     * of a directory.
     */
    method CheckFile(path: string) returns (ok: bool, checked: string)
      ensures operation.Upload? ==> (ok <==> path !in system.nodes) && checked == path
      ensures !operation.Upload? ==>
                && checked == (if path in system.nodes && system.nodes[path].Directory? then path + "/index.html"
                               else path)
                && (ok <==> path in system.nodes && checked in system.nodes && system.nodes[checked].readable)
      ensures Check(system.nodes, operation, path) == if ok then Some(checked) else None
    {
      checked := path;
      match operation {
        case Download | Remove =>
          if path !in system.nodes { return false, checked; }
          if system.nodes[path].Directory? {
            checked := path + "/index.html";
            if checked !in system.nodes { return false, checked; }
          }
          ok := system.nodes[checked].readable;
        case Upload =>
          ok := path !in system.nodes;
      }
    }

    /** No two generated names coincide. */
    ghost predicate NamesDiffer() {
      forall m: nat, n: nat, f, g :: names(m, f) == names(n, g) ==> m == n
    }

    /** With fewer than MAX_TRIES paths there always is a free name among the candidates of an upload. */
    lemma NameFound(directory: string, filename: string)
      requires NamesDiffer() && |system.nodes| < MAX_TRIES
      ensures exists k: nat :: k < MAX_TRIES
                && Check(system.nodes, Upload, Candidate(names, drawn, directory, filename, true, k)).Some?
    {
      forall i: nat, j: nat | i < j < MAX_TRIES
        ensures Candidate(names, drawn, directory, filename, true, i)
             != Candidate(names, drawn, directory, filename, true, j)
      {
        SamePrefix(directory + "/", names(drawn + i, filename), names(drawn + j, filename));
      }
      FreshNameFound(system.nodes, names, drawn, directory, filename);
    }

    /**
     * Looks for a path the operation accepts, and gives up after MAX_TRIES refusals. It finds the first accepted
     * candidate, and fails exactly when none of the first MAX_TRIES is accepted.
     */
    method ChangePathAndFilename(filename: string, directory: string, change: bool) returns (ok: bool, path: string)
      modifies this`drawn
      ensures ok <==> exists k: nat :: k < MAX_TRIES
                        && Check(system.nodes, operation,
                                 Candidate(names, old(drawn), directory, filename, change, k)).Some?
      ensures ok ==> exists k: nat :: (
                  && k < MAX_TRIES && drawn == old(drawn) + (if change then k + 1 else 0)
                  && Check(system.nodes, operation, Candidate(names, old(drawn), directory, filename, change, k))
                     == Some(path)
                  && forall j: nat :: j < k ==>
                       Check(system.nodes, operation,
                             Candidate(names, old(drawn), directory, filename, change, j)).None?)
      ensures !ok ==> drawn == old(drawn) + (if change then 1_000_001 else 0)
      ensures operation.Upload? && change && NamesDiffer() && |system.nodes| < MAX_TRIES ==> ok
    {
      if NamesDiffer() && |system.nodes| < MAX_TRIES { NameFound(directory, filename); }
      var tries: nat := 0;
      ok, path := false, "";
      while !ok
        invariant 0 <= tries <= MAX_TRIES
        invariant drawn == old(drawn) + (if change then tries else 0)
        invariant forall j: nat :: j < tries - (if ok then 1 else 0) ==>
                    Check(system.nodes, operation, Candidate(names, old(drawn), directory, filename, change, j)).None?
        invariant ok ==> 1 <= tries
        invariant ok ==> Check(system.nodes, operation,
                               Candidate(names, old(drawn), directory, filename, change, tries - 1)) == Some(path)
        decreases MAX_TRIES - tries, !ok
      {
        path := directory + "/" + if change then names(drawn, filename) else filename;
        assert path == Candidate(names, old(drawn), directory, filename, change, tries);
        if change { drawn := drawn + 1; }
        var free, checked := CheckFile(path);
        tries := tries + 1;
        if tries > MAX_TRIES { return false, path; }
        if free {
          ok, path := true, checked;
        }
      }
    }

    /** The first MAX_TRIES paths that a search from the n-th name on looks at all exist. */
    ghost predicate Exhausted(n: nat, directory: string, filename: string)
      reads system
    {
      forall k: nat :: k < MAX_TRIES ==> Candidate(names, n, directory, filename, true, k) in system.nodes
    }

    /** A search for a target was given up after all its candidates turned out to exist. */
    ghost predicate GaveUp()
      reads this, system
    {
      exists i, n: nat ::
        0 <= i < |files| && n + MAX_TRIES < drawn && Exhausted(n, directoryBase, files[i].filename)
    }

    // ----- Receiving parts -----

    /** What an upload needs of a search: a path that is free, unless all candidates exist. */
    method FreePath(filename: string, directory: string) returns (ok: bool, path: string)
      requires operation.Upload?
      modifies this`drawn
      ensures ok <==> !Exhausted(old(drawn), directory, filename)
      ensures ok ==> path !in system.nodes
      ensures drawn >= old(drawn) && (!ok ==> drawn == old(drawn) + MAX_TRIES + 1)
      ensures NamesDiffer() && |system.nodes| < MAX_TRIES ==> ok
    {
      ok, path := ChangePathAndFilename(filename, directory, true);
    }

    /** Every received part lies at its own temporary path, and the files of before are as they were. */
    ghost predicate Received(initial: Nodes, parts: seq<Bytes>)
      reads this, system
    {
      && |parts| == |files|
      && (forall i :: 0 <= i < |files| ==>
            && files[i].tmp in system.nodes && system.nodes[files[i].tmp] == Data(parts[i], true)
            && files[i].tmp !in initial)
      && (forall i, j :: 0 <= i < j < |files| ==> files[i].tmp != files[j].tmp)
      && (forall p :: p in initial ==> p in system.nodes && system.nodes[p] == initial[p])
    }

    /**
     * handlePart: the part is written to a fresh temporary path, and a fresh target path is chosen. An exception means
     * that a search gave up because all its candidates exist, and leaves the list of files as it was.
     */
    method HandlePart(name: string, filename: string, content: Bytes, ghost initial: Nodes, ghost parts: seq<Bytes>)
      returns (ending: Ending)
      requires operation.Upload? && Received(initial, parts)
      modifies this`drawn, this`files, system
      ensures ending.Raised? ==> files == old(files) && Received(initial, parts)
      ensures var clean := Replaced(filename, " ", "-");
              && (old(Exhausted(drawn, directoryForTempFiles, clean)) ==> ending.Raised?)
              && (ending.Raised? ==>
                    || old(Exhausted(drawn, directoryForTempFiles, clean))
                    || exists n: nat :: n + MAX_TRIES < drawn && Exhausted(n, directoryBase, clean))
      ensures NamesDiffer() && |old(system.nodes)| + 1 < MAX_TRIES ==> ending.Completed?
      ensures |system.nodes| <= |old(system.nodes)| + 1
      ensures ending.Completed? ==>
                && Received(initial, parts + [content])
                && |files| == |old(files)| + 1 && files[..|files| - 1] == old(files)
                && var f := files[|files| - 1];
                   && f.name == name && f.filename == Replaced(filename, " ", "-")
                   && f.tmp !in old(system.nodes) && f.requested !in system.nodes && f.length == 0
    {
      var clean, _ := Replace(filename, " ", "-");
      var ok, tmp := FreePath(clean, directoryForTempFiles);
      if !ok { return Raised; }
      system.nodes := system.nodes[tmp := Data(content, true)];
      var requested;
      ghost var n := drawn;
      ok, requested := FreePath(clean, directoryBase);
      assert !ok ==> n + MAX_TRIES < drawn && Exhausted(n, directoryBase, clean);
      if !ok { return Raised; }
      files := files + [UploadedFile(name, clean, requested, tmp, 0)];
      ending := Completed;
    }

    // ----- Checking a batch -----

    /** Nobody has asked for the sizes of the files: every length is the one of a new file. */
    ghost predicate Unmeasured()
      reads this
    {
      forall i :: 0 <= i < |files| ==> files[i].length == 0
    }

    /** IsSupported_: all files have a supported target. */
    method IsSupported(supported: string -> bool) returns (ok: bool)
      ensures ok <==> forall i :: 0 <= i < |files| ==> supported(files[i].requested)
    {
      for i := 0 to |files|
        invariant forall j :: 0 <= j < i ==> supported(files[j].requested)
      {
        if !supported(files[i].requested) { return false; }
      }
      ok := true;
    }

    /** VerifyMaxFileSize_: no file is longer than the limit. */
    method VerifyMaxFileSize(maxFileSize: int) returns (ok: bool)
      ensures ok <==> forall i :: 0 <= i < |files| ==> files[i].length <= maxFileSize
    {
      for i := 0 to |files|
        invariant forall j :: 0 <= j < i ==> files[j].length <= maxFileSize
      {
        if files[i].length > maxFileSize { return false; }
      }
      ok := true;
    }

    // ----- Uploading -----

    ghost predicate InTemp(i: nat, part: Bytes)
      requires i < |files|
      reads this, system
    {
      files[i].tmp in system.nodes && system.nodes[files[i].tmp] == Data(part, true)
    }

    ghost predicate InTarget(i: nat, part: Bytes)
      requires i < |files|
      reads this, system
    {
      files[i].requested in system.nodes && system.nodes[files[i].requested] == Data(part, true)
    }

    /** The targets are free, and no two paths of the batch coincide. */
    ghost predicate Staged(initial: Nodes, parts: seq<Bytes>)
      reads this, system
    {
      && Received(initial, parts)
      && (forall i :: 0 <= i < |files| ==> files[i].requested !in system.nodes)
      && (forall i, j :: 0 <= i < j < |files| ==> files[i].requested != files[j].requested)
    }

    /** Of the first n files those with a name have moved, the others have not. */
    ghost predicate MovedUpTo(n: nat, initial: Nodes, parts: seq<Bytes>)
      reads this, system
    {
      Moved(n, files, system.nodes, initial, parts)
    }

    /** The only file that has moved is the first one with a name, unless its move failed. */
    ghost predicate MovedFirst(moveFails: nat -> bool, parts: seq<Bytes>)
      requires |parts| == |files|
      reads this, system
    {
      forall i :: 0 <= i < |files| ==>
        (InTarget(i, parts[i]) <==> files[i].name != "" && Unnamed(files[..i]) && !moveFails(i))
    }

    /** Every part lies at exactly one of its two paths, and the files of before are as they were. */
    ghost predicate Conserved(initial: Nodes, parts: seq<Bytes>)
      reads this, system
    {
      && |parts| == |files|
      && (forall i :: 0 <= i < |files| ==> (InTemp(i, parts[i]) <==> !InTarget(i, parts[i])))
      && (forall p :: p in initial ==> p in system.nodes && system.nodes[p] == initial[p])
    }

    /** One round of the first loop of UploadProcess_: a free target with a name that was not drawn before. */
    method StageFile(i: nat) returns (ok: bool, ghost turn: nat)
      requires operation.Upload? && i < |files|
      modifies this`drawn, this`files
      ensures if ok then
                var f := old(files)[i];
                && old(drawn) <= turn < drawn
                && files == old(files)[i := f.(requested := directoryBase + "/" + names(turn, f.filename))]
                && files[i].requested !in system.nodes
              else files == old(files) && GaveUp()
      ensures ok <==> !Exhausted(old(drawn), directoryBase, old(files)[i].filename)
      ensures drawn >= old(drawn)
      ensures NamesDiffer() && |system.nodes| < MAX_TRIES ==> ok
    {
      var path;
      ok, path := ChangePathAndFilename(files[i].filename, directoryBase, true);
      if ok {
        ghost var k: nat :| && k < MAX_TRIES && drawn == old(drawn) + k + 1
                            && Check(system.nodes, operation,
                                     Candidate(names, old(drawn), directoryBase, files[i].filename, true, k))
                               == Some(path);
        turn := old(drawn) + k;
        files := files[i := files[i].(requested := path)];
      } else {
        turn := 0;
        assert Exhausted(old(drawn), directoryBase, files[i].filename);
      }
    }

    /**
     * The loop: every file gets a target that is free, and, unless generated names coincide, that no other file of the
     * batch has.
     */
    method StageFiles(ghost initial: Nodes, ghost parts: seq<Bytes>) returns (ok: bool)
      requires operation.Upload?
      modifies this`drawn, this`files
      ensures |files| == |old(files)|
      ensures forall i :: 0 <= i < |files| ==> files[i] == old(files)[i].(requested := files[i].requested)
      ensures if ok then forall i :: 0 <= i < |files| ==> files[i].requested !in system.nodes else GaveUp()
      ensures old(Received(initial, parts)) ==> Received(initial, parts)
      ensures ok && NamesDiffer() && old(Received(initial, parts)) ==> Staged(initial, parts)
      ensures NamesDiffer() && |system.nodes| < MAX_TRIES ==> ok
    {
      ghost var turns: seq<nat> := [];
      for i := 0 to |files|
        invariant |files| == |old(files)| && |turns| == i
        invariant forall k :: 0 <= k < |files| ==> files[k] == old(files)[k].(requested := files[k].requested)
        invariant forall k :: 0 <= k < i ==> files[k].requested !in system.nodes
        invariant forall k :: 0 <= k < i ==>
                    turns[k] < drawn && files[k].requested == directoryBase + "/" + names(turns[k], files[k].filename)
        invariant forall j, k :: 0 <= j < k < i ==> turns[j] != turns[k]
      {
        ghost var turn;
        ok, turn := StageFile(i);
        if !ok { return false; }
        turns := turns + [turn];
      }
      forall j, k | 0 <= j < k < |files| && NamesDiffer()
        ensures files[j].requested != files[k].requested
      {
        SamePrefix(directoryBase + "/", names(turns[j], files[j].filename), names(turns[k], files[k].filename));
      }
      ok := true;
    }

    /** ProcessContentLength_ asks for the size of every target; the first one that is missing raises an exception. */
    method ProcessContentLength() returns (ending: Ending)
      ensures ending.Completed? <==> forall i :: 0 <= i < |files| ==> files[i].requested in system.nodes
    {
      for i := 0 to |files|
        invariant forall j :: 0 <= j < i ==> files[j].requested in system.nodes
      {
        if files[i].requested !in system.nodes { return Raised; }
      }
      ending := Completed;
    }

    /** Moves file i to its target, if it is there to be moved. */
    method MoveFile(i: nat, fails: bool, ghost initial: Nodes, ghost parts: seq<Bytes>) returns (ending: Ending)
      requires i < |files| && files[i].name != ""
      modifies system
      ensures ending.Raised? <==> fails || files[i].tmp !in old(system.nodes)
      ensures ending.Raised? ==> system.nodes == old(system.nodes)
      ensures old(MovedUpTo(i, initial, parts)) ==>
                (ending.Raised? <==> fails) && (ending.Completed? ==> MovedUpTo(i + 1, initial, parts))
    {
      var f := files[i];
      if MovedUpTo(i, initial, parts) {
        MoveKeeps(i, files, system.nodes, initial, parts);
      }
      if fails || f.tmp !in system.nodes { return Raised; }
      system.nodes := (system.nodes - {f.tmp})[f.requested := system.nodes[f.tmp]];
      ending := Completed;
    }

    lemma MovedIsConserved(n: nat, initial: Nodes, parts: seq<Bytes>)
      requires MovedUpTo(n, initial, parts)
      ensures Conserved(initial, parts)
      ensures forall i :: 0 <= i < |files| ==> (InTarget(i, parts[i]) <==> i < n && files[i].name != "")
      ensures forall i :: 0 <= i < |files| ==>
                (files[i].requested in system.nodes <==> InTarget(i, parts[i]))
    {
    }

    lemma StagedIsUnmoved(initial: Nodes, parts: seq<Bytes>)
      requires Staged(initial, parts)
      ensures MovedUpTo(0, initial, parts)
    {
    }

    /** One round of the loop: of a staged batch only a single file survives the question for the sizes. */
    method TransferFile(i: nat, moveFails: nat -> bool, ghost initial: Nodes, ghost parts: seq<Bytes>)
      returns (ending: Ending)
      requires i < |files| && files[i].name != ""
      modifies system
      ensures old(MovedUpTo(i, initial, parts)) && Unnamed(files[..i]) ==>
                && Conserved(initial, parts)
                && (ending.Completed? <==> |files| == 1 && !moveFails(i))
                && (ending.Completed? ==> MovedUpTo(i + 1, initial, parts))
                && (ending.Raised? ==> MovedFirst(moveFails, parts))
    {
      ghost var staged := MovedUpTo(i, initial, parts) && Unnamed(files[..i]);
      ending := MoveFile(i, moveFails(i), initial, parts);
      if staged {
        MovedIsConserved(if ending.Raised? then i else i + 1, initial, parts);
        FirstNamed(files, i);
        assert |files| > 1 ==> !InTarget(if i == 0 then 1 else 0, parts[if i == 0 then 1 else 0]);
      }
      if ending.Completed? {
        ending := ProcessContentLength();
      }
    }

    /** The batches that can be completed: those without a file to move, and a single file that can be moved. */
    predicate CanComplete(moveFails: nat -> bool)
      reads this
    {
      Unnamed(files) || (|files| == 1 && !moveFails(0))
    }

    /**
     * UploadFile_: moves the files one after the other and asks for all sizes after each move. However it ends, every
     * part of a staged batch lies at exactly one of its paths. It completes only without a file to move, or with a
     * single file that can be moved: with two or more files, the size of a target that was not moved yet is missing.
     */
    method UploadFile(moveFails: nat -> bool, ghost initial: Nodes, ghost parts: seq<Bytes>) returns (ending: Ending)
      modifies system
      ensures Unnamed(files) ==> ending.Completed? && system.nodes == old(system.nodes)
      ensures old(Staged(initial, parts)) ==>
                && Conserved(initial, parts)
                && (ending.Completed? <==> CanComplete(moveFails))
                && (ending.Completed? ==>
                      forall i :: 0 <= i < |files| ==> (InTarget(i, parts[i]) <==> files[i].name != ""))
                && (ending.Raised? ==> MovedFirst(moveFails, parts))
    {
      ghost var staged := Staged(initial, parts);
      if staged { StagedIsUnmoved(initial, parts); }
      for i := 0 to |files|
        invariant staged ==> MovedUpTo(i, initial, parts)
        invariant staged && !Unnamed(files[..i]) ==> |files| == 1 && !moveFails(0)
        invariant Unnamed(files[..i]) ==> system.nodes == old(system.nodes)
      {
        assert files[..i + 1] == files[..i] + [files[i]];
        if files[i].name != "" {
          ending := TransferFile(i, moveFails, initial, parts);
          if ending.Raised? { return; }
        } else if staged {
          MovedSkips(i, files, system.nodes, initial, parts);
        }
      }
      assert files[..|files|] == files;
      if staged { MovedIsConserved(|files|, initial, parts); }
      ending := Completed;
    }
  }

  predicate Unnamed(files: seq<UploadedFile>) {
    forall f :: f in files ==> f.name == ""
  }

  lemma FirstNamed(files: seq<UploadedFile>, i: nat)
    requires i < |files| && files[i].name != "" && Unnamed(files[..i])
    ensures forall k :: 0 <= k < |files| && files[k].name != "" && Unnamed(files[..k]) ==> k == i
    ensures !Unnamed(files)
  {
    assert files[i] in files;
    forall k | 0 <= k < |files| && k != i
      ensures files[k].name == "" || !Unnamed(files[..k])
    {
      if k < i {
        assert files[k] in files[..i];
      } else {
        assert files[i] in files[..k];
      }
    }
  }

  /** Of the first n files those with a name lie at their targets, the others at their temporary paths. */
  ghost predicate Moved(n: nat, files: seq<UploadedFile>, nodes: Nodes, initial: Nodes, parts: seq<Bytes>) {
    && |parts| == |files|
    && (forall i, j :: 0 <= i < |files| && 0 <= j < |files| ==> files[i].requested != files[j].tmp)
    && (forall i, j :: 0 <= i < j < |files| ==>
          files[i].requested != files[j].requested && files[i].tmp != files[j].tmp)
    && (forall i :: 0 <= i < |files| ==>
          && files[i].tmp !in initial && files[i].requested !in initial
          && if i < n && files[i].name != "" then Only(nodes, files[i].requested, files[i].tmp, parts[i])
             else Only(nodes, files[i].tmp, files[i].requested, parts[i]))
    && (forall p :: p in initial ==> p in nodes && nodes[p] == initial[p])
  }

  /** The part lies at the first path, and nothing at the second. */
  ghost predicate Only(nodes: Nodes, path: string, other: string, part: Bytes) {
    path in nodes && nodes[path] == Data(part, true) && other !in nodes
  }

  lemma MoveKeeps(i: nat, files: seq<UploadedFile>, nodes: Nodes, initial: Nodes, parts: seq<Bytes>)
    requires i < |files| && files[i].name != "" && Moved(i, files, nodes, initial, parts)
    ensures var f := files[i];
            f.tmp in nodes && Moved(i + 1, files, (nodes - {f.tmp})[f.requested := nodes[f.tmp]], initial, parts)
  {
    assert Only(nodes, files[i].tmp, files[i].requested, parts[i]);
  }

  lemma MovedSkips(i: nat, files: seq<UploadedFile>, nodes: Nodes, initial: Nodes, parts: seq<Bytes>)
    requires i < |files| && files[i].name == "" && Moved(i, files, nodes, initial, parts)
    ensures Moved(i + 1, files, nodes, initial, parts)
  {
  }

  /** A generator that answers with one more letter each time. */
  function Letters(n: nat, filename: string): (name: string)
    ensures |name| == n
  {
    seq(n, _ => 'a')
  }

  /** Two named files are received, each at its temporary path. */
  method ReceiveTwo(files: FileManager, first: Bytes, second: Bytes)
    requires files.operation.Upload? && files.NamesDiffer() && files.files == [] && files.system.nodes == map[]
    modifies files`drawn, files`files, files.system
    ensures files.Received(map[], [first, second]) && |files.system.nodes| <= 2
    ensures files.files[0].name == "one" && files.files[1].name == "two"
  {
    var one := files.HandlePart("one", "one.txt", first, map[], []);
    ghost var old1 := files.files;
    assert [] + [first] == [first] && old1[0].name == "one";
    var two := files.HandlePart("two", "two.txt", second, map[], [first]);
    assert files.files[..1] == old1;
    assert [first] + [second] == [first, second];
  }

  /** They get their targets, and the upload still ends with an exception, after the first of them was moved. */
  method TwoFileUpload(first: Bytes, second: Bytes) returns (files: FileManager, ending: Ending)
    ensures ending.Raised? && |files.files| == 2
    ensures files.InTarget(0, first) && files.InTemp(1, second) && !files.InTarget(1, second)
  {
    var system := new FileSystem(map[]);
    files := new FileManager(system, Letters, "/base", "/tmp", Upload);
    ReceiveTwo(files, first, second);
    var staged := files.StageFiles(map[], [first, second]);
    assert files.files[0] in files.files && Unnamed(files.files[..0]) && files.files[1].name != "";
    assert files.Staged(map[], [first, second]);
    ending := files.UploadFile(_ => false, map[], [first, second]);
    FirstNamed(files.files, 0);
  }

  lemma SamePrefix(prefix: string, a: string, b: string)
    ensures prefix + a == prefix + b ==> a == b
  {
    assert (prefix + a)[|prefix|..] == a;
    assert (prefix + b)[|prefix|..] == b;
  }

  // ----- The search for a fresh name -----

  /**
   * The search for an upload path succeeds whenever the first MAX_TRIES candidates are distinct and fewer than
   * MAX_TRIES paths exist.
   */
  lemma FreshNameFound(nodes: Nodes, names: (nat, string) -> string, n: nat, directory: string, filename: string)
    requires |nodes| < MAX_TRIES
    requires forall i: nat, j: nat :: i < j < MAX_TRIES ==>
               Candidate(names, n, directory, filename, true, i) != Candidate(names, n, directory, filename, true, j)
    ensures exists k: nat :: k < MAX_TRIES
              && Check(nodes, Upload, Candidate(names, n, directory, filename, true, k)).Some?
  {
    var candidates := (k: nat) => Candidate(names, n, directory, filename, true, k);
    if forall k: nat :: k < MAX_TRIES ==> candidates(k) in nodes {
      var used := Sets.Pigeonhole(candidates, MAX_TRIES, nodes.Keys);
    } else {
      var k: nat :| k < MAX_TRIES && candidates(k) !in nodes;
      assert Check(nodes, Upload, Candidate(names, n, directory, filename, true, k)).Some?;
    }
  }
}
