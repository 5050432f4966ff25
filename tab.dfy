/** The tab of gedit-tab.c: the state machine a tab goes through while its
    document is loaded, reverted and saved, the autosave timer it keeps, the
    save flags it carries from one save to the next, whether it can be
    closed, and the name shown on it. */
module GeditTab {
  import opened Common
  import GeditTextBuffer
  import GeditUtils
  import GeditDocumentSaver

  type Encoding = GeditTextBuffer.Encoding
  type SaveFlags = GeditDocumentSaver.SaveFlags

  datatype TabState =
    | Normal | Loading | Reverting | Saving | Printing | PrintPreviewing
    | ShowingPrintPreview | GenericNotEditable | LoadingError | RevertingError
    | SavingError | GenericError | Closing

  /** The states in which the file is being read or written, or an error
      from that is still shown: no autosave timer runs in them. */
  predicate IoBusy(s: TabState)
  {
    s == Loading || s == Saving || s == Reverting
    || s == LoadingError || s == SavingError || s == RevertingError
  }

  /** The states from which a save may start. */
  predicate Settled(s: TabState)
  {
    s == Normal || s == ShowingPrintPreview
  }

  /** The states in which closing never loses anything the user asked for:
      the file is still being read, or reading it failed. */
  predicate LoadFamily(s: TabState)
  {
    s == Loading || s == LoadingError || s == Reverting || s == RevertingError
  }

  /** A failed load or save, by the domain and the code of its `GError`. */
  datatype ErrorDomain = DocumentError | IoError | ConvertError
  datatype ErrorCode = ExternallyModifiedCode | CantCreateBackupCode | CancelledCode | OtherCode
  datatype Failure = Failure(domain: ErrorDomain, code: ErrorCode)

  /** The message area shown above the view. */
  datatype MessageArea =
    | NoArea
    | LoadingErrorArea
    | ExternallyModifiedSavingArea
    | NoBackupSavingArea
    | UnrecoverableSavingArea
    | ConversionSavingArea
    | ExternallyModifiedNotificationArea

  /** The last request the tab made of its document. */
  datatype IoRequest =
    | NoRequest
    | LoadRequest(uri: string, loadEncoding: Option<Encoding>, linePos: int, create: bool)
    | SaveRequest(flags: SaveFlags)
    | SaveAsRequest(uri: string, encoding: Encoding, flags: SaveFlags)

  /** What the tab reads of its document. */
  datatype DocStatus = DocStatus(uri: Option<string>, encoding: Encoding, modified: bool,
                                readonly: bool, deleted: bool)
  {
    /** `gedit_document_is_untitled`: a document without a location. */
    predicate Untitled()
    {
      uri.None?
    }
  }

  /** Whether an autosave timer belongs on the tab once it is settled. */
  predicate WantsTimer(autoSave: bool, doc: DocStatus)
  {
    autoSave && !doc.Untitled() && !doc.readonly
  }

  /** The message area chosen for a failed save (lines 1260-1335): an
      external modification and a failed backup can be overridden, a
      conversion failure can be retried with another encoding, every other
      failure only dismissed. */
  function SavingErrorArea(e: Failure): (a: MessageArea)
    requires e.domain != IoError
    ensures a == ExternallyModifiedSavingArea <==> e == Failure(DocumentError, ExternallyModifiedCode)
    ensures a == NoBackupSavingArea <==> e == Failure(DocumentError, CantCreateBackupCode)
    ensures a == ConversionSavingArea <==> e.domain == ConvertError
    ensures a == UnrecoverableSavingArea <==>
      e.domain == DocumentError && e.code != ExternallyModifiedCode && e.code != CantCreateBackupCode
  {
    match e.domain
    case DocumentError =>
      if e.code == ExternallyModifiedCode then ExternallyModifiedSavingArea
      else if e.code == CantCreateBackupCode then NoBackupSavingArea
      else UnrecoverableSavingArea
    case ConvertError => ConversionSavingArea
  }

  /** `_gedit_tab_can_close`: a tab still loading, or whose load failed, can
      go; one whose save failed cannot; any other only when nothing would
      be lost. */
  function CanClose(s: TabState, modified: bool, deleted: bool): (r: bool)
    ensures LoadFamily(s) ==> r
    ensures s == SavingError ==> !r
    ensures !LoadFamily(s) ==> (r <==> s != SavingError && !modified && !deleted)
  {
    if LoadFamily(s) then true
    else if s == SavingError then false
    else !modified && !deleted
  }

  /** Unsaved changes keep a tab open unless its file never loaded. */
  lemma CanCloseKeepsChanges(s: TabState, modified: bool, deleted: bool)
    requires modified || deleted
    ensures CanClose(s, modified, deleted) <==> LoadFamily(s)
  {
  }

  const MaxDocNameLength: nat := 40

  /** `_gedit_tab_get_name`: the short name cut in the middle to 40
      characters (its first 19, an ellipsis and its last 20), after a `*`
      when the document is modified. */
  function TabName(shortName: string, modified: bool): (r: string)
    ensures var p := if modified then 1 else 0;
      && |r| <= MaxDocNameLength + p
      && (modified ==> |r| > 0 && r[0] == '*')
      && (|shortName| <= MaxDocNameLength ==> r[p..] == shortName)
      && (|shortName| > MaxDocNameLength ==>
            |r| == MaxDocNameLength + p
            && r[p..p + 19] == shortName[..19]
            && r[p + 19] == GeditUtils.Ellipsis
            && r[p + 20..] == shortName[|shortName| - 20..])
  {
    var d := GeditUtils.StrMiddleTruncate(shortName, MaxDocNameLength);
    GeditUtils.StrMiddleTruncateBounds(shortName, MaxDocNameLength);
    if modified then "*" + d else d
  }

  const RetryPeriodMs: nat := 30 * 1000

  class Tab {
    var state: TabState
    var stateNotifications: nat
    var doc: DocStatus
    var hasPrintPreview: bool
    var messageArea: MessageArea

    var autoSave: bool
    var autoSaveInterval: int
    /** The id of the autosave timer, 0 when none runs. */
    var autoSaveTimeout: nat
    var timerPeriodMs: nat
    /** The next id the main loop hands out for a timer. */
    var nextSourceId: nat

    var saveFlags: SaveFlags
    var tmpSaveUri: Option<string>
    var tmpEncoding: Option<Encoding>
    var tmpLinePos: int
    var request: IoRequest

    /** What the code keeps true between events: a running timer means
        autosave is on and no I/O is under way; a file name is kept for
        exactly the span of a save, an encoding only while I/O is under way; the flags kept across saves never hold
        the one-shot ones. */
    predicate Valid()
      reads this
    {
      && autoSaveInterval > 0
      && 0 < nextSourceId && autoSaveTimeout < nextSourceId
      && (autoSaveTimeout > 0 ==> autoSave && !IoBusy(state))
      && !saveFlags.ignoreMtime && !saveFlags.preserveBackup
      && ((state == Saving || state == SavingError) <==> tmpSaveUri.Some?)
      && ((state == Saving || state == SavingError) ==> tmpEncoding.Some?)
      && (tmpEncoding.Some? ==> IoBusy(state))
    }

    /** `gedit_tab_init` (lines 1352-1426) for a new, untitled document: the
        autosave preference normalised to a boolean, and a non-positive
        interval replaced by the default one. */
    constructor(autoSavePref: int, intervalPref: int, defaultInterval: int, encoding: Encoding)
      requires defaultInterval > 0
      ensures Valid() && state == Normal && autoSaveTimeout == 0
      ensures autoSave <==> autoSavePref != 0
      ensures autoSaveInterval == if intervalPref <= 0 then defaultInterval else intervalPref
      ensures saveFlags == GeditDocumentSaver.NoSaveFlags
      ensures doc == DocStatus(None, encoding, false, false, false)
    {
      state := Normal;
      stateNotifications := 0;
      doc := DocStatus(None, encoding, false, false, false);
      hasPrintPreview := false;
      messageArea := NoArea;
      saveFlags := GeditDocumentSaver.NoSaveFlags;
      autoSave := autoSavePref != 0;
      autoSaveInterval := if intervalPref <= 0 then defaultInterval else intervalPref;
      autoSaveTimeout := 0;
      timerPeriodMs := 0;
      nextSourceId := 1;
      tmpSaveUri := None;
      tmpEncoding := None;
      tmpLinePos := 0;
      request := NoRequest;
    }

    /** The document changed on its own (it was edited, saved, moved or made
        read-only); the tab only reads these attributes. */
    method ObserveDocument(d: DocStatus)
      modifies this`doc
      ensures doc == d
    {
      doc := d;
    }

    /** `gedit_tab_set_state`: a change of state notifies the `state`
        property; setting the same state again does nothing. */
    method SetState(s: TabState)
      modifies this`state, this`stateNotifications
      ensures state == s
      ensures stateNotifications == old(stateNotifications) + (if old(state) == s then 0 else 1)
    {
      if state == s {
        return;
      }
      state := s;
      stateNotifications := stateNotifications + 1;
    }

    /** `g_timeout_add`: a new timer with a fresh, positive id. */
    method AddTimeout(periodMs: nat)
      requires nextSourceId > 0
      modifies this`autoSaveTimeout, this`timerPeriodMs, this`nextSourceId
      ensures autoSaveTimeout == old(nextSourceId) && nextSourceId == autoSaveTimeout + 1
      ensures timerPeriodMs == periodMs
    {
      autoSaveTimeout := nextSourceId;
      nextSourceId := nextSourceId + 1;
      timerPeriodMs := periodMs;
    }

    /** `install_auto_save_timeout`: only with no timer running, autosave
        on and no I/O under way; the timer fires after the interval, in
        minutes. */
    method InstallAutoSaveTimeout()
      requires autoSaveTimeout == 0 && autoSave && autoSaveInterval > 0 && !IoBusy(state)
      requires nextSourceId > 0
      modifies this`autoSaveTimeout, this`timerPeriodMs, this`nextSourceId
      ensures autoSaveTimeout == old(nextSourceId) && nextSourceId == autoSaveTimeout + 1
      ensures timerPeriodMs == autoSaveInterval * 1000 * 60
    {
      AddTimeout(autoSaveInterval * 1000 * 60);
    }

    /** `install_auto_save_timeout_if_needed`: in a settled state, a timer
        is installed exactly when autosave is on for a titled, writable
        document. */
    method InstallIfNeeded() returns (installed: bool)
      requires autoSaveTimeout == 0 && Settled(state) && autoSaveInterval > 0 && nextSourceId > 0
      modifies this`autoSaveTimeout, this`timerPeriodMs, this`nextSourceId
      ensures installed <==> WantsTimer(autoSave, doc)
      ensures installed ==> autoSaveTimeout == old(nextSourceId) && nextSourceId == autoSaveTimeout + 1
                            && timerPeriodMs == autoSaveInterval * 1000 * 60
      ensures !installed ==> unchanged(this)
    {
      if autoSave && !doc.Untitled() && !doc.readonly {
        InstallAutoSaveTimeout();
        return true;
      }
      return false;
    }

    /** `remove_auto_save_timeout`. */
    method RemoveAutoSaveTimeout()
      requires autoSaveTimeout > 0
      modifies this`autoSaveTimeout
      ensures autoSaveTimeout == 0
    {
      autoSaveTimeout := 0;
    }

    /** `_gedit_tab_load`: only from NORMAL; the tab enters LOADING, keeps
        the line and encoding for later and stops its timer. */
    method Load(uri: string, encoding: Option<Encoding>, linePos: int, create: bool)
      requires Valid() && state == Normal
      modifies this`state, this`stateNotifications, this`tmpLinePos, this`tmpEncoding,
               this`autoSaveTimeout, this`request
      ensures Valid() && state == Loading && autoSaveTimeout == 0
      ensures stateNotifications == old(stateNotifications) + 1
      ensures tmpLinePos == linePos && tmpEncoding == encoding
      ensures request == LoadRequest(uri, encoding, linePos, create)
    {
      SetState(Loading);
      tmpLinePos := linePos;
      tmpEncoding := encoding;
      if autoSaveTimeout > 0 {
        RemoveAutoSaveTimeout();
      }
      request := LoadRequest(uri, encoding, linePos, create);
    }

    /** `_gedit_tab_revert`: only from NORMAL and for a document with a
        location; it is read again from the top with its own encoding. */
    method Revert()
      requires Valid() && state == Normal && !doc.Untitled()
      modifies this`state, this`stateNotifications, this`tmpLinePos, this`tmpEncoding,
               this`autoSaveTimeout, this`request
      ensures Valid() && state == Reverting && autoSaveTimeout == 0
      ensures stateNotifications == old(stateNotifications) + 1
      ensures tmpLinePos == 0 && tmpEncoding == Some(doc.encoding)
      ensures request == LoadRequest(doc.uri.value, Some(doc.encoding), 0, false)
    {
      SetState(Reverting);
      tmpLinePos := 0;
      tmpEncoding := Some(doc.encoding);
      if autoSaveTimeout > 0 {
        RemoveAutoSaveTimeout();
      }
      request := LoadRequest(doc.uri.value, tmpEncoding, 0, false);
    }

    /** The file name and encoding kept while a save of the document to
        its own location is under way. */
    method StartSaving(s: SaveFlags)
      requires !doc.Untitled()
      modifies this`state, this`stateNotifications, this`tmpSaveUri, this`tmpEncoding, this`request
      ensures state == Saving
      ensures stateNotifications == old(stateNotifications) + (if old(state) == Saving then 0 else 1)
      ensures tmpSaveUri == doc.uri && tmpEncoding == Some(doc.encoding)
      ensures request == SaveRequest(s)
    {
      SetState(Saving);
      tmpSaveUri := doc.uri;
      tmpEncoding := Some(doc.encoding);
      request := SaveRequest(s);
    }

    /** `_gedit_tab_save`: only from a settled state, with no save under
        way and for a titled document; the tab enters SAVING, stops its
        timer and saves with the flags it keeps. */
    method Save()
      requires Valid() && Settled(state) && tmpSaveUri.None? && tmpEncoding.None? && !doc.Untitled()
      modifies this`state, this`stateNotifications, this`tmpSaveUri, this`tmpEncoding,
               this`autoSaveTimeout, this`request
      ensures Valid() && state == Saving && autoSaveTimeout == 0
      ensures stateNotifications == old(stateNotifications) + 1
      ensures tmpSaveUri == doc.uri && tmpEncoding == Some(doc.encoding)
      ensures request == SaveRequest(saveFlags)
    {
      StartSaving(saveFlags);
      if autoSaveTimeout > 0 {
        RemoveAutoSaveTimeout();
      }
    }

    /** `gedit_tab_auto_save`, the timer's callback; `keep` is whether the
        timer goes on. An unmodified document keeps the timer; a tab busy
        with something else tries again in 30 seconds on a new timer;
        otherwise the document is saved, keeping the previous backup. */
    method AutoSaveTick() returns (keep: bool)
      requires Valid() && tmpSaveUri.None? && tmpEncoding.None?
      requires !doc.Untitled() && !doc.readonly
      requires autoSaveTimeout > 0 && autoSave && autoSaveInterval > 0
      modifies this`state, this`stateNotifications, this`tmpSaveUri, this`tmpEncoding,
               this`autoSaveTimeout, this`timerPeriodMs, this`nextSourceId, this`request
      ensures Valid()
      ensures keep <==> !doc.modified
      ensures !doc.modified ==> unchanged(this)
      ensures doc.modified && !Settled(old(state)) ==>
        && state == old(state) && autoSaveTimeout == old(nextSourceId) && timerPeriodMs == RetryPeriodMs
        && request == old(request) && tmpSaveUri.None?
      ensures doc.modified && Settled(old(state)) ==>
        && state == Saving && autoSaveTimeout == 0
        && tmpSaveUri == doc.uri && tmpEncoding == Some(doc.encoding)
        && request == SaveRequest(saveFlags.(preserveBackup := true))
    {
      if !doc.modified {
        return true;
      }
      if state != Normal && state != ShowingPrintPreview {
        AddTimeout(RetryPeriodMs);
        return false;
      }
      StartSaving(saveFlags.(preserveBackup := true));
      autoSaveTimeout := 0;
      return false;
    }

    /** `_gedit_tab_save_as`: only from a settled state with no save under
        way; the flags kept from earlier saves are dropped. */
    method SaveAs(uri: string, encoding: Encoding)
      requires Valid() && Settled(state) && tmpSaveUri.None? && tmpEncoding.None?
      modifies this`state, this`stateNotifications, this`tmpSaveUri, this`tmpEncoding,
               this`saveFlags, this`autoSaveTimeout, this`request
      ensures Valid() && state == Saving && autoSaveTimeout == 0
      ensures stateNotifications == old(stateNotifications) + 1
      ensures tmpSaveUri == Some(uri) && tmpEncoding == Some(encoding)
      ensures saveFlags == GeditDocumentSaver.NoSaveFlags
      ensures request == SaveAsRequest(uri, encoding, GeditDocumentSaver.NoSaveFlags)
    {
      SetState(Saving);
      tmpSaveUri := Some(uri);
      tmpEncoding := Some(encoding);
      saveFlags := GeditDocumentSaver.NoSaveFlags;
      if autoSaveTimeout > 0 {
        RemoveAutoSaveTimeout();
      }
      request := SaveAsRequest(uri, encoding, saveFlags);
    }

    /** `document_loaded`: a failed load leaves the tab in the matching
        error state and keeps the line and encoding for another attempt; a
        cancelled one is dropped without a message, and a successful one
        returns to NORMAL and starts the timer if it is wanted, both
        dropping the kept line and encoding. */
    method DocumentLoaded(failure: Option<Failure>)
      requires Valid() && (state == Loading || state == Reverting) && autoSaveTimeout == 0
      requires failure.Some? ==> failure.value.domain != IoError
      modifies this`state, this`stateNotifications, this`messageArea, this`tmpLinePos,
               this`tmpEncoding, this`autoSaveTimeout, this`timerPeriodMs, this`nextSourceId
      ensures Valid()
      ensures failure.Some? ==>
        && state == (if old(state) == Loading then LoadingError else RevertingError)
        && autoSaveTimeout == 0
      ensures failure == Some(Failure(DocumentError, CancelledCode)) ==>
        messageArea == NoArea && tmpLinePos == 0 && tmpEncoding.None?
      ensures failure.Some? && failure != Some(Failure(DocumentError, CancelledCode)) ==>
        messageArea == LoadingErrorArea && tmpLinePos == old(tmpLinePos) && tmpEncoding == old(tmpEncoding)
      ensures failure.None? ==>
        && state == Normal && messageArea == NoArea && tmpLinePos == 0 && tmpEncoding.None?
        && (autoSaveTimeout > 0 <==> WantsTimer(autoSave, doc))
    {
      messageArea := NoArea;
      if failure.Some? {
        SetState(if state == Loading then LoadingError else RevertingError);
        if failure.value != Failure(DocumentError, CancelledCode) {
          messageArea := LoadingErrorArea;
          return;
        }
      } else {
        SetState(Normal);
        var _ := InstallIfNeeded();
      }
      tmpLinePos := 0;
      tmpEncoding := None;
    }

    /** `end_saving`: the kept file name and encoding are dropped and the
        timer starts again if it is wanted. */
    method EndSaving()
      requires Settled(state) && autoSaveTimeout == 0 && autoSaveInterval > 0 && nextSourceId > 0
      modifies this`tmpSaveUri, this`tmpEncoding, this`autoSaveTimeout, this`timerPeriodMs,
               this`nextSourceId
      ensures tmpSaveUri.None? && tmpEncoding.None?
      ensures autoSaveTimeout > 0 <==> WantsTimer(autoSave, doc)
      ensures autoSaveTimeout < nextSourceId && old(nextSourceId) <= nextSourceId
    {
      tmpSaveUri := None;
      tmpEncoding := None;
      var _ := InstallIfNeeded();
    }

    /** `document_saved`: a failed save enters SAVING_ERROR and shows the
        message area for the failure, keeping the file name; a successful
        one returns to the settled state and ends the save. */
    method DocumentSaved(failure: Option<Failure>)
      requires Valid() && state == Saving && tmpSaveUri.Some? && tmpEncoding.Some? && autoSaveTimeout == 0
      requires failure.Some? ==> failure.value.domain != IoError
      modifies this`state, this`stateNotifications, this`messageArea, this`tmpSaveUri,
               this`tmpEncoding, this`autoSaveTimeout, this`timerPeriodMs, this`nextSourceId
      ensures Valid()
      ensures failure.Some? ==>
        && state == SavingError && messageArea == SavingErrorArea(failure.value)
        && tmpSaveUri == old(tmpSaveUri) && tmpEncoding == old(tmpEncoding) && autoSaveTimeout == 0
      ensures failure.None? ==>
        && state == (if hasPrintPreview then ShowingPrintPreview else Normal)
        && messageArea == NoArea && tmpSaveUri.None?
        && (autoSaveTimeout > 0 <==> WantsTimer(autoSave, doc))
    {
      messageArea := NoArea;
      if failure.Some? {
        SetState(SavingError);
        messageArea := SavingErrorArea(failure.value);
      } else {
        SetState(if hasPrintPreview then ShowingPrintPreview else Normal);
        EndSaving();
      }
    }

    /** `unrecoverable_saving_error_message_area_response`: the save is
        given up and the tab returns to its settled state. */
    method GiveUpSaving()
      requires Valid() && state == SavingError
      modifies this`state, this`stateNotifications, this`messageArea, this`tmpSaveUri,
               this`tmpEncoding, this`autoSaveTimeout, this`timerPeriodMs, this`nextSourceId
      ensures Valid()
      ensures state == (if hasPrintPreview then ShowingPrintPreview else Normal)
      ensures messageArea == NoArea && tmpSaveUri.None?
      ensures autoSaveTimeout > 0 <==> WantsTimer(autoSave, doc)
    {
      SetState(if hasPrintPreview then ShowingPrintPreview else Normal);
      EndSaving();
      messageArea := NoArea;
    }

    /** `no_backup_error_message_area_response`: saving anyway adds
        IGNORE_BACKUP to the kept flags, so the user is not asked again. */
    method NoBackupResponse(yes: bool)
      requires Valid() && state == SavingError && messageArea == NoBackupSavingArea
      modifies this`state, this`stateNotifications, this`messageArea, this`tmpSaveUri,
               this`tmpEncoding, this`autoSaveTimeout, this`timerPeriodMs, this`nextSourceId,
               this`saveFlags, this`request
      ensures Valid() && messageArea == NoArea
      ensures yes ==>
        && state == Saving && saveFlags == old(saveFlags).(ignoreBackup := true)
        && request == SaveRequest(saveFlags) && tmpSaveUri == old(tmpSaveUri)
      ensures !yes ==>
        && state == (if hasPrintPreview then ShowingPrintPreview else Normal)
        && saveFlags == old(saveFlags) && request == old(request) && tmpSaveUri.None?
    {
      if yes {
        messageArea := NoArea;
        SetState(Saving);
        saveFlags := saveFlags.(ignoreBackup := true);
        request := SaveRequest(saveFlags);
      } else {
        GiveUpSaving();
      }
    }

    /** `externally_modified_error_message_area_response`: saving anyway
        ignores the modification time for this save only. */
    method ExternallyModifiedResponse(yes: bool)
      requires Valid() && state == SavingError && messageArea == ExternallyModifiedSavingArea
      modifies this`state, this`stateNotifications, this`messageArea, this`tmpSaveUri,
               this`tmpEncoding, this`autoSaveTimeout, this`timerPeriodMs, this`nextSourceId,
               this`request
      ensures Valid() && messageArea == NoArea
      ensures yes ==>
        && state == Saving && request == SaveRequest(saveFlags.(ignoreMtime := true))
        && tmpSaveUri == old(tmpSaveUri)
      ensures !yes ==>
        && state == (if hasPrintPreview then ShowingPrintPreview else Normal)
        && request == old(request) && tmpSaveUri.None?
    {
      if yes {
        messageArea := NoArea;
        SetState(Saving);
        request := SaveRequest(saveFlags.(ignoreMtime := true));
      } else {
        GiveUpSaving();
      }
    }

    /** `recoverable_saving_error_message_area_response`: with the encoding
        the user picked, the file is saved again under the kept name. */
    method ConversionErrorResponse(ok: bool, encoding: Option<Encoding>)
      requires Valid() && state == SavingError && messageArea == ConversionSavingArea
      requires ok ==> encoding.Some?
      modifies this`state, this`stateNotifications, this`messageArea, this`tmpSaveUri,
               this`tmpEncoding, this`autoSaveTimeout, this`timerPeriodMs, this`nextSourceId,
               this`request
      ensures Valid() && messageArea == NoArea
      ensures ok ==>
        && state == Saving && tmpEncoding == encoding && tmpSaveUri == old(tmpSaveUri)
        && request == SaveAsRequest(old(tmpSaveUri).value, encoding.value, saveFlags)
      ensures !ok ==>
        && state == (if hasPrintPreview then ShowingPrintPreview else Normal)
        && request == old(request) && tmpSaveUri.None?
    {
      if ok {
        messageArea := NoArea;
        SetState(Saving);
        tmpEncoding := encoding;
        request := SaveAsRequest(tmpSaveUri.value, encoding.value, saveFlags);
      } else {
        GiveUpSaving();
      }
    }

    /** `_gedit_tab_mark_for_closing`: only from NORMAL. */
    method MarkForClosing()
      requires Valid() && state == Normal
      modifies this`state, this`stateNotifications
      ensures Valid() && state == Closing
      ensures stateNotifications == old(stateNotifications) + 1
    {
      SetState(Closing);
    }

    /** `gedit_tab_set_auto_save_enabled`: nothing happens for the value
        already set; disabling stops a running timer; enabling starts one
        for a titled, writable document unless I/O is under way (the timer
        then starts when it ends). */
    method SetAutoSaveEnabled(enable: bool)
      requires Valid()
      modifies this`autoSave, this`autoSaveTimeout, this`timerPeriodMs, this`nextSourceId
      ensures Valid() && autoSave == enable
      ensures old(autoSave) == enable ==> unchanged(this)
      ensures !enable ==> autoSaveTimeout == 0
      ensures enable && !old(autoSave) ==>
        (autoSaveTimeout > 0 <==> !doc.Untitled() && !doc.readonly && !IoBusy(state))
    {
      if autoSave == enable {
        return;
      }
      autoSave := enable;
      if enable && autoSaveTimeout == 0 && !doc.Untitled() && !doc.readonly {
        if !IoBusy(state) {
          InstallAutoSaveTimeout();
        }
        return;
      }
      if !enable && autoSaveTimeout > 0 {
        RemoveAutoSaveTimeout();
        return;
      }
      // The closing check of the source always holds here.
      assert (!enable && autoSaveTimeout == 0) || doc.Untitled() || doc.readonly;
    }

    /** `gedit_tab_set_auto_save_interval`: a new interval restarts a
        running timer with that interval; the same interval does nothing. */
    method SetAutoSaveInterval(interval: int)
      requires Valid() && interval > 0
      requires interval != autoSaveInterval && autoSave && autoSaveTimeout > 0 ==>
        !doc.Untitled() && !doc.readonly
      modifies this`autoSaveInterval, this`autoSaveTimeout, this`timerPeriodMs, this`nextSourceId
      ensures Valid() && autoSaveInterval == interval
      ensures old(autoSaveInterval) == interval ==> unchanged(this)
      ensures old(autoSaveTimeout) == 0 ==> autoSaveTimeout == 0
      ensures old(autoSaveTimeout) > 0 && old(autoSaveInterval) != interval ==>
        autoSaveTimeout == old(nextSourceId) && timerPeriodMs == interval * 1000 * 60
    {
      if autoSaveInterval == interval {
        return;
      }
      autoSaveInterval := interval;
      if !autoSave {
        return;
      }
      if autoSaveTimeout > 0 {
        RemoveAutoSaveTimeout();
        InstallAutoSaveTimeout();
      }
    }
  }
}
