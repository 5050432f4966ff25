/** The decisions of gedit/gedit-document-saver.c when a document is saved
    to a local file: the bytes written (with the trailing-newline rule), the
    backup file name, the refusal checks and the choice between the
    tmp-file-and-rename strategy and the copy-then-overwrite fallback. The
    file system is abstract: a `fileExists` predicate, a `stat` record and the
    outcome of every system call the save makes. */
module GeditDocumentSaver {
  import opened Common
  import GeditTextBuffer

  /** The flags of a save request, one field per bit. */
  datatype SaveFlags = SaveFlags(ignoreMtime: bool, ignoreBackup: bool, preserveBackup: bool)

  const NoSaveFlags := SaveFlags(false, false, false)

  /** The static UTF-8 encoding record. */
  const Utf8 := GeditTextBuffer.Encoding("UTF-8")

  // ---------------------------------------------------------------------
  // write_document_contents

  /** A newline is appended to non-empty contents that do not already end
      in one (lines 205-208). */
  predicate NeedsNewline(contents: string)
  {
    |contents| >= 1 && contents[|contents| - 1] != '\n'
  }

  /** The bytes a successful `write_document_contents` leaves in the file,
      or None when converting the contents to its encoding fails.
      `convert` stands for `gedit_convert_from_utf8`; a newline that does not
      convert is silently not written. */
  function Written(contents: string, encoding: GeditTextBuffer.Encoding,
                   convert: string -> Option<string>): Option<string>
  {
    if encoding == Utf8 then
      Some(if NeedsNewline(contents) then contents + "\n" else contents)
    else
      match convert(contents)
      case None => None
      case Some(c) =>
        if !NeedsNewline(contents) then Some(c)
        else match convert("\n")
          case None => Some(c)
          case Some(n) => Some(c + n)
  }

  /** In UTF-8 the contents are kept and at most one newline is added:
      the file is empty or ends in a newline, and saving what was written
      again writes the same bytes. */
  lemma WrittenUtf8(contents: string, convert: string -> Option<string>)
    ensures Written(contents, Utf8, convert).Some?
    ensures var w := Written(contents, Utf8, convert).value;
      && contents <= w && |w| <= |contents| + 1
      && (w == [] <==> contents == [])
      && (w != [] ==> w[|w| - 1] == '\n')
      && (NeedsNewline(contents) <==> |w| == |contents| + 1)
      && Written(w, Utf8, convert) == Some(w)
  {
  }

  /** The two writes `write_document_contents` makes: the contents in the
      file's encoding, and the newline when one is needed and converts.
      None when the contents do not convert. */
  function Payload(contents: string, encoding: GeditTextBuffer.Encoding,
                   convert: string -> Option<string>): Option<(string, Option<string>)>
  {
    var body := if encoding == Utf8 then Some(contents) else convert(contents);
    match body
    case None => None
    case Some(b) =>
      Some((b, if !NeedsNewline(contents) then None
               else if encoding == Utf8 then Some("\n") else convert("\n")))
  }

  /** Written is what the two writes put one after the other. */
  lemma PayloadWritten(contents: string, encoding: GeditTextBuffer.Encoding,
                       convert: string -> Option<string>)
    ensures Payload(contents, encoding, convert).None? <==> Written(contents, encoding, convert).None?
    ensures Payload(contents, encoding, convert).Some? ==>
      var (b, nl) := Payload(contents, encoding, convert).value;
      Written(contents, encoding, convert) == Some(b + if nl.Some? then nl.value else [])
  {
    if encoding == Utf8 {
      assert contents + [] == contents;
    } else if convert(contents).Some? && !NeedsNewline(contents) {
      assert convert(contents).value + [] == convert(contents).value;
    }
  }

  /** What the system calls on the file descriptor report: whether `lseek`
      and `ftruncate` succeed, and what each `write` returns (-1 on an
      error, otherwise the number of bytes it wrote). */
  datatype WriteCalls = WriteCalls(seekOk: bool, truncateOk: bool, contentsWritten: int, newlineWritten: int)

  /** The bytes of `b` a `write` that returns `k` leaves in the file. */
  function WrittenPart(b: string, k: int): (r: string)
    ensures r <= b
  {
    if k <= 0 then [] else b[..Min(k, |b|)]
  }

  /** Whether `write_document_contents` reports success: the contents
      convert, seeking and truncating succeed and each write it makes
      writes all its bytes (lines 234-278). */
  predicate WriteSucceeds(contents: string, encoding: GeditTextBuffer.Encoding,
                          convert: string -> Option<string>, calls: WriteCalls)
  {
    match Payload(contents, encoding, convert)
    case None => false
    case Some((b, nl)) =>
      && calls.seekOk && calls.truncateOk && calls.contentsWritten == |b|
      && (nl.Some? ==> calls.newlineWritten == |nl.value|)
  }

  /** `write_document_contents`, lines 184-293, on a file holding
      `fileBefore`: the contents are converted, the file is rewound and
      truncated, and the contents written, then the newline if one is
      needed. A failure before the truncation leaves the file as it was;
      one after it leaves the start of the new bytes, and none of the old. */
  method WriteDocumentContents(fileBefore: string, contents: string, encoding: GeditTextBuffer.Encoding,
                               convert: string -> Option<string>, calls: WriteCalls)
    returns (res: bool, file: string)
    ensures res <==> WriteSucceeds(contents, encoding, convert, calls)
    ensures res ==> Written(contents, encoding, convert).Some? && file == Written(contents, encoding, convert).value
    ensures Written(contents, encoding, convert).None? || !calls.seekOk || !calls.truncateOk ==>
              file == fileBefore
    ensures Written(contents, encoding, convert).Some? && calls.seekOk && calls.truncateOk ==>
              file <= Written(contents, encoding, convert).value
  {
    PayloadWritten(contents, encoding, convert);
    file := fileBefore;
    var addCr := |contents| >= 1 && contents[|contents| - 1] != '\n';
    var bytes := contents;
    if encoding != Utf8 {
      var converted := convert(contents);
      if converted.None? {
        return false, file;
      }
      bytes := converted.value;
    }
    res := calls.seekOk;
    if res {
      res := calls.truncateOk;
    }
    if !res {
      return;
    }
    file := WrittenPart(bytes, calls.contentsWritten);
    res := calls.contentsWritten == |bytes|;
    if res && addCr {
      var n := if encoding != Utf8 then convert("\n") else Some("\n");
      if n.Some? {
        file := file + WrittenPart(n.value, calls.newlineWritten);
        res := calls.newlineWritten == |n.value|;
      }
    }
  }

  // ---------------------------------------------------------------------
  // get_backup_filename

  /** The backup extension: the configured one, or `~` when it is unset or
      empty. */
  function BackupExt(ext: Option<string>): (r: string)
    ensures r != ""
    ensures ext.Some? && ext.value != "" ==> r == ext.value
  {
    if ext.Some? && |ext.value| > 0 then ext.value else "~"
  }

  /** The local path with its last character replaced by `c`, followed by
      the extension. */
  function Variant(localPath: string, ext: string, c: char): (r: string)
    requires |localPath| >= 1
    ensures |r| == |localPath| + |ext|
  {
    localPath[..|localPath| - 1] + [c] + ext
  }

  /** The variants with letters in `(c, 'z']` all exist. */
  predicate AllExistAbove(fileExists: string -> bool, localPath: string, ext: string, c: char)
    requires |localPath| >= 1
  {
    forall d: char :: c < d <= 'z' ==> fileExists(Variant(localPath, ext, d))
  }

  /** `get_backup_filename`, lines 316-356. */
  method GetBackupFilename(localPath: string, backupExt: Option<string>, keepBackup: bool,
                           fileExists: string -> bool) returns (r: Option<string>)
    ensures var ext := BackupExt(backupExt);
      keepBackup || !fileExists(localPath + ext) ==> r == Some(localPath + ext)
    ensures var ext := BackupExt(backupExt);
      !keepBackup && fileExists(localPath + ext) && |localPath| < 2 ==> r.None?
    ensures var ext := BackupExt(backupExt);
      !keepBackup && fileExists(localPath + ext) && |localPath| >= 2 ==>
        && (r.None? <==> AllExistAbove(fileExists, localPath, ext, 'a'))
        && (r.Some? ==> exists c: char :: ('b' <= c <= 'z' && r.value == Variant(localPath, ext, c)
                                          && !fileExists(r.value) && AllExistAbove(fileExists, localPath, ext, c)))
  {
    var ext := BackupExt(backupExt);
    var fname := localPath + ext;
    if keepBackup || !fileExists(fname) {
      return Some(fname);
    }
    if |localPath| < 2 {
      return None;
    }
    var c := 'z';
    while c > 'a' && fileExists(Variant(localPath, ext, c))
      invariant 'a' <= c <= 'z'
      invariant AllExistAbove(fileExists, localPath, ext, c)
      decreases c as int
    {
      c := (c as int - 1) as char;
    }
    if c == 'a' {
      return None;
    }
    r := Some(Variant(localPath, ext, c));
  }

  // ---------------------------------------------------------------------
  // remove_file

  /** What `unlink` did. */
  datatype UnlinkResult = Unlinked | NoSuchFile | UnlinkFailed

  /** `remove_file`, lines 358-367: like `unlink`, but a file that was never
      there is not an error. */
  function RemoveFile(u: UnlinkResult): (ok: bool)
    ensures ok <==> u != UnlinkFailed
  {
    match u
    case Unlinked => true
    case NoSuchFile => true
    case UnlinkFailed => false
  }

  // ---------------------------------------------------------------------
  // save_existing_local_file

  datatype FileKind = RegularFile | DirectoryFile | OtherFile

  /** The fields of `struct stat` the saver looks at. */
  datatype Stat = Stat(kind: FileKind, mode: bv32, mtime: int, nlink: nat)

  datatype SaveError =
    | IsDirectory | NotRegularFile | ReadOnly | ExternallyModified
    | GenericError | CantCreateBackup
    /** An error reported from `errno`. */
    | SystemError

  datatype Strategy = NotStarted | TmpFileRename | CopyAndOverwrite

  /** The outcome of every system call of the save, in the order they are
      made; a call the save does not reach is not looked at. */
  datatype IoOutcomes = IoOutcomes(
    fstatOk: bool,
    mkstempOk: bool, tmpPermsOk: bool, tmpXattrsOk: bool, writeTmp: WriteCalls,
    renameToBackupOk: bool, renameTmpOk: bool, restatTmpOk: bool,
    removeOldBackup: UnlinkResult, openBackupOk: bool, backupGroupOk: bool,
    backupXattrsOk: bool, copyOk: bool, overwrite: WriteCalls, restatOk: bool,
    newMtime: int)

  /** The checks made before anything is written, in their order
      (lines 499-545). */
  function Refusal(st: Stat, docMtime: int, flags: SaveFlags): (r: Option<SaveError>)
    ensures st.kind == DirectoryFile ==> r == Some(IsDirectory)
    ensures st.kind == OtherFile ==> r == Some(NotRegularFile)
    ensures st.kind == RegularFile && st.mode & 0x92 == 0 ==> r == Some(ReadOnly)
    ensures r == Some(ExternallyModified) <==>
      st.kind == RegularFile && st.mode & 0x92 != 0 &&
      docMtime > 0 && st.mtime != docMtime && !flags.ignoreMtime
    ensures r.None? <==>
      st.kind == RegularFile && st.mode & 0x92 != 0 &&
      !(docMtime > 0 && st.mtime != docMtime && !flags.ignoreMtime)
  {
    if st.kind != RegularFile then
      if st.kind == DirectoryFile then Some(IsDirectory) else Some(NotRegularFile)
    else if st.mode & 0x92 == 0 then Some(ReadOnly)
    else if docMtime > 0 && st.mtime != docMtime && !flags.ignoreMtime then Some(ExternallyModified)
    else None
  }

  /** The tmp-file strategy is tried only when backups live next to the
      file, the file has a single hard link and is not a symbolic link
      (lines 574-576). */
  predicate TmpStrategyApplies(backupsInCurrDir: bool, st: Stat, isSymlink: bool)
  {
    backupsInCurrDir && !(st.nlink > 1) && !isSymlink
  }

  /** The tmp file could be made and given the original's owner, mode and
      extended attributes. */
  predicate TmpFilePrepared(io: IoOutcomes)
  {
    io.mkstempOk && io.tmpPermsOk && io.tmpXattrsOk
  }

  /** Every step of copying the original into the backup succeeded. */
  predicate BackupCopied(io: IoOutcomes)
  {
    RemoveFile(io.removeOldBackup) && io.openBackupOk && io.backupGroupOk && io.backupXattrsOk && io.copyOk
  }

  class DocumentSaver {
    var uri: string
    var localPath: Option<string>
    var backupExt: Option<string>
    var keepBackup: bool
    var backupsInCurrDir: bool
    var encoding: GeditTextBuffer.Encoding
    var docMtime: int
    var flags: SaveFlags

    var error: Option<SaveError>
    var strategy: Strategy
    /** The bytes in the file at the local path (the original). */
    var fileData: string
    /** The bytes of the backup file, when one is left on disk. */
    var backupData: Option<string>
    var completedSignals: nat

    constructor(contents: string)
      ensures fileData == contents && error.None? && strategy == NotStarted
      ensures backupData.None? && completedSignals == 0 && flags == NoSaveFlags
    {
      uri := "";
      localPath := None;
      backupExt := None;
      keepBackup := false;
      backupsInCurrDir := true;
      encoding := Utf8;
      docMtime := 0;
      flags := NoSaveFlags;
      error := None;
      strategy := NotStarted;
      fileData := contents;
      backupData := None;
      completedSignals := 0;
    }

    /** The option setup of `gedit_document_saver_save`, lines 1349-1391:
        autosaves never keep a backup, backups live next to the file and a
        missing encoding means UTF-8. `prefExt` and `prefKeep` are the
        preferences read. Opening and writing the file is not part of this
        method. */
    method Setup(newUri: string, enc: Option<GeditTextBuffer.Encoding>, oldMtime: int,
                 newFlags: SaveFlags, prefExt: Option<string>, prefKeep: bool, path: Option<string>)
      requires |newUri| > 0
      modifies this
      ensures uri == newUri && backupExt == prefExt && docMtime == oldMtime && flags == newFlags
      ensures keepBackup <==> !newFlags.preserveBackup && prefKeep
      ensures backupsInCurrDir
      ensures encoding == if enc.Some? then enc.value else Utf8
      ensures localPath == path
      ensures unchanged(this`error, this`strategy, this`fileData, this`backupData, this`completedSignals)
    {
      uri := newUri;
      backupExt := prefExt;
      if newFlags.preserveBackup {
        keepBackup := false;
      } else {
        keepBackup := prefKeep;
      }
      backupsInCurrDir := true;
      if enc.Some? {
        encoding := enc.value;
      } else {
        encoding := Utf8;
      }
      docMtime := oldMtime;
      flags := newFlags;
      localPath := path;
    }

    /** `save_existing_local_file`, lines 476-876, for a file whose stat is
        `st`: a refusal leaves the file alone; the tmp-file strategy either
        completes or, when the tmp file cannot be prepared, falls back to
        copying the original into the backup and overwriting it; unless
        backups are to be ignored, a backup that cannot be made stops the
        save before the original is touched. In every case one `saving`
        signal reports completion. */
    method SaveExistingLocalFile(st: Stat, isSymlink: bool, fileExists: string -> bool, io: IoOutcomes,
                                 contents: string, convert: string -> Option<string>)
      requires localPath.Some?
      modifies this
      ensures completedSignals == old(completedSignals) + 1
      ensures !io.fstatOk ==> error == Some(SystemError) && fileData == old(fileData)
      ensures io.fstatOk && Refusal(st, old(docMtime), flags).Some? ==>
        error == Refusal(st, old(docMtime), flags) && fileData == old(fileData) && strategy == NotStarted
      ensures strategy == TmpFileRename ==> TmpStrategyApplies(backupsInCurrDir, st, isSymlink) && TmpFilePrepared(io)
      ensures strategy == CopyAndOverwrite && !flags.ignoreBackup && !BackupCopied(io) ==>
        error == Some(CantCreateBackup) && fileData == old(fileData)
      ensures error.None? ==>
        && strategy != NotStarted && Refusal(st, old(docMtime), flags).None?
        && Written(contents, encoding, convert).Some? && fileData == Written(contents, encoding, convert).value
        && docMtime == io.newMtime
      ensures error.None? && keepBackup && !(strategy == CopyAndOverwrite && flags.ignoreBackup) ==>
        backupData == Some(old(fileData))
      ensures error.None? && !keepBackup && !(strategy == CopyAndOverwrite && flags.ignoreBackup) ==>
        backupData.None?
      ensures strategy == CopyAndOverwrite && flags.ignoreBackup ==> backupData == old(backupData)
      ensures strategy == CopyAndOverwrite && (flags.ignoreBackup || BackupCopied(io)) ==>
        if Written(contents, encoding, convert).None? || !io.overwrite.seekOk || !io.overwrite.truncateOk
        then fileData == old(fileData)
        else fileData <= Written(contents, encoding, convert).value
      ensures unchanged(this`uri, this`localPath, this`backupExt, this`keepBackup, this`flags, this`encoding)
    {
      error := None;
      strategy := NotStarted;
      if !io.fstatOk {
        error := Some(SystemError);
        completedSignals := completedSignals + 1;
        return;
      }
      var refusal := Refusal(st, docMtime, flags);
      if refusal.Some? {
        error := refusal;
        completedSignals := completedSignals + 1;
        return;
      }
      var backupName := GetBackupFilename(localPath.value, backupExt, keepBackup, fileExists);
      if backupName.None? {
        error := Some(GenericError);
        completedSignals := completedSignals + 1;
        return;
      }
      if backupsInCurrDir && !(st.nlink > 1) && !isSymlink && io.mkstempOk && io.tmpPermsOk && io.tmpXattrsOk {
        strategy := TmpFileRename;
        TmpFileSave(io, contents, convert);
      } else {
        strategy := CopyAndOverwrite;
        CopyAndOverwriteSave(io, contents, convert);
      }
      completedSignals := completedSignals + 1;
    }

    /** The tmp-file strategy once the tmp file is prepared (lines 624-720):
        write the tmp file, rename the original to the backup and the tmp
        file to the original; the backup is unlinked unless it is kept. */
    method TmpFileSave(io: IoOutcomes, contents: string, convert: string -> Option<string>)
      requires error.None?
      modifies this
      ensures error.None? ==>
        && Written(contents, encoding, convert).Some?
        && fileData == Written(contents, encoding, convert).value && docMtime == io.newMtime
      ensures error.None? && keepBackup ==> backupData == Some(old(fileData))
      ensures error.None? && !keepBackup ==> backupData.None?
      ensures !(WriteSucceeds(contents, encoding, convert, io.writeTmp) && io.renameToBackupOk && io.renameTmpOk) ==>
                fileData == old(fileData)
      ensures unchanged(this`uri, this`localPath, this`backupExt, this`keepBackup, this`flags, this`encoding)
      ensures unchanged(this`strategy, this`completedSignals, this`backupsInCurrDir)
    {
      var ok, data := WriteDocumentContents([], contents, encoding, convert, io.writeTmp);
      if !ok {
        error := Some(SystemError);
        return;
      }
      if !io.renameToBackupOk {
        error := Some(SystemError);
        return;
      }
      var original := fileData;
      if !io.renameTmpOk {
        // the backup is renamed back to the original name
        error := Some(SystemError);
        return;
      }
      fileData := data;
      backupData := Some(original);
      if !io.restatTmpOk {
        error := Some(SystemError);
        return;
      }
      docMtime := io.newMtime;
      if !keepBackup {
        backupData := None;
      }
    }

    /** The fallback strategy (lines 722-862): unless told to ignore
        backups, the original is copied into a fresh backup file first; then
        the original is overwritten, and a backup that is not to be kept is
        unlinked. */
    method CopyAndOverwriteSave(io: IoOutcomes, contents: string, convert: string -> Option<string>)
      requires error.None?
      modifies this
      ensures !flags.ignoreBackup && !BackupCopied(io) ==> error == Some(CantCreateBackup) && fileData == old(fileData)
      ensures error.None? ==>
        && Written(contents, encoding, convert).Some?
        && fileData == Written(contents, encoding, convert).value && docMtime == io.newMtime
      ensures error.None? && keepBackup && !flags.ignoreBackup ==> backupData == Some(old(fileData))
      ensures error.None? && !keepBackup && !flags.ignoreBackup ==> backupData.None?
      ensures flags.ignoreBackup ==> backupData == old(backupData)
      ensures flags.ignoreBackup || BackupCopied(io) ==>
        if Written(contents, encoding, convert).None? || !io.overwrite.seekOk || !io.overwrite.truncateOk
        then fileData == old(fileData)
        else fileData <= Written(contents, encoding, convert).value
      ensures unchanged(this`uri, this`localPath, this`backupExt, this`keepBackup, this`flags, this`encoding)
      ensures unchanged(this`strategy, this`completedSignals, this`backupsInCurrDir)
    {
      var backupCreated := false;
      if !flags.ignoreBackup {
        if !RemoveFile(io.removeOldBackup) || !io.openBackupOk || !io.backupGroupOk
          || !io.backupXattrsOk || !io.copyOk {
          error := Some(CantCreateBackup);
          return;
        }
        // the old backup was removed and the copy put in its place
        backupCreated := true;
        backupData := Some(fileData);
      }
      var ok, data := WriteDocumentContents(fileData, contents, encoding, convert, io.overwrite);
      fileData := data;
      if !ok {
        error := Some(SystemError);
        return;
      }
      if backupCreated && !keepBackup {
        backupData := None;
      }
      if !io.restatOk {
        error := Some(SystemError);
        return;
      }
      docMtime := io.newMtime;
    }
  }
}
