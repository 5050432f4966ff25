/** The view container of gedit-view-container.c, the successor of the tab:
    the same load, revert and save machine and autosave timer, with the
    SAVE_TO_DISK lockdown, the CLOSING state, and the prompt shown when the
    file changed on disk while the user was elsewhere. */
module GeditViewContainer {
  import opened Common
  import GeditDocumentSaver
  import GeditTab

  type Encoding = GeditTab.Encoding
  type Failure = GeditTab.Failure
  type MessageArea = GeditTab.MessageArea
  type IoRequest = GeditTab.IoRequest
  type DocStatus = GeditTab.DocStatus

  datatype ContainerState =
    | Normal | Loading | Reverting | Saving | Printing | PrintPreviewing
    | ShowingPrintPreview | GenericNotEditable | LoadingError | RevertingError
    | SavingError | GenericError | Closing | ExternallyModifiedNotification

  /** The states in which the file is being read or written, or an error
      from that is still shown (lines 131-138, 2963-2968). */
  predicate IoBusy(s: ContainerState)
  {
    s == Loading || s == Saving || s == Reverting
    || s == LoadingError || s == SavingError || s == RevertingError
  }

  predicate LoadFamily(s: ContainerState)
  {
    s == Loading || s == LoadingError || s == Reverting || s == RevertingError
  }

  /** The states from which the user may save: those of the tab, and the
      prompt about an external modification. */
  predicate SaveAllowed(s: ContainerState)
  {
    s == Normal || s == ExternallyModifiedNotification || s == ShowingPrintPreview
  }

  /** The message area for a failed save (lines 1421-1489): failing to make
      the backup is recognised in both error domains, every other document
      or I/O failure can only be dismissed, and anything else is a
      conversion failure. */
  function SavingErrorArea(e: Failure): (a: MessageArea)
    ensures a == GeditTab.ExternallyModifiedSavingArea <==> e == GeditTab.Failure(GeditTab.DocumentError, GeditTab.ExternallyModifiedCode)
    ensures a == GeditTab.NoBackupSavingArea <==> e.domain != GeditTab.ConvertError && e.code == GeditTab.CantCreateBackupCode
    ensures a == GeditTab.ConversionSavingArea <==> e.domain == GeditTab.ConvertError
    ensures a == GeditTab.UnrecoverableSavingArea <==>
      && e.domain != GeditTab.ConvertError && e.code != GeditTab.CantCreateBackupCode
      && e != GeditTab.Failure(GeditTab.DocumentError, GeditTab.ExternallyModifiedCode)
  {
    if e == GeditTab.Failure(GeditTab.DocumentError, GeditTab.ExternallyModifiedCode) then GeditTab.ExternallyModifiedSavingArea
    else if e.domain != GeditTab.ConvertError && e.code == GeditTab.CantCreateBackupCode then GeditTab.NoBackupSavingArea
    else if e.domain != GeditTab.ConvertError then GeditTab.UnrecoverableSavingArea
    else GeditTab.ConversionSavingArea
  }

  /** The tab and the container agree on every failure the tab can meet,
      except that the container also offers to save without a backup when
      the backup failed for an I/O reason. */
  lemma SavingErrorAreaExtendsTab(e: Failure)
    requires e.domain != GeditTab.IoError
    ensures SavingErrorArea(e) == GeditTab.SavingErrorArea(e)
  {
  }

  /** `_gedit_view_container_can_close` (lines 2879-2907). */
  function CanClose(s: ContainerState, modified: bool, deleted: bool): (r: bool)
    ensures LoadFamily(s) ==> r
    ensures s == SavingError ==> !r
    ensures !LoadFamily(s) ==> (r <==> s != SavingError && !modified && !deleted)
  {
    if LoadFamily(s) then true
    else if s == SavingError then false
    else !modified && !deleted
  }

  /** The flags a save from the external-modification prompt adds to the
      kept ones: the user has already been told, so the modification time
      is not checked again. */
  function FlagsForSave(s: ContainerState, kept: GeditDocumentSaver.SaveFlags): (f: GeditDocumentSaver.SaveFlags)
    ensures f.ignoreBackup == kept.ignoreBackup && f.preserveBackup == kept.preserveBackup
    ensures f.ignoreMtime <==> kept.ignoreMtime || s == ExternallyModifiedNotification
  {
    if s == ExternallyModifiedNotification then kept.(ignoreMtime := true) else kept
  }

  /** The flags `_gedit_view_container_save_as` passes as written (line
      2447): the kept flags, just reset, so the flags computed for the
      external-modification prompt are never used. */
  function SaveAsFlagsAsWritten(s: ContainerState): (f: GeditDocumentSaver.SaveFlags)
    ensures f == GeditDocumentSaver.NoSaveFlags
  {
    var local := FlagsForSave(s, GeditDocumentSaver.NoSaveFlags);
    GeditDocumentSaver.NoSaveFlags
  }

  /** Saving as from the prompt does check the modification time again,
      unlike a plain save from the same prompt. */
  lemma SaveAsAsWrittenChecksMtime()
    ensures !SaveAsFlagsAsWritten(ExternallyModifiedNotification).ignoreMtime
    ensures FlagsForSave(ExternallyModifiedNotification, GeditDocumentSaver.NoSaveFlags).ignoreMtime
  {
  }

  const RetryPeriodSeconds: nat := 30

  class ViewContainer {
    var state: ContainerState
    var stateNotifications: nat
    var doc: DocStatus
    var hasPrintPreview: bool
    var messageArea: MessageArea
    var askIfExternallyModified: bool

    var autoSave: bool
    var autoSaveInterval: int
    /** The id of the autosave timer, 0 when none runs. */
    var autoSaveTimeout: nat
    var timerPeriodSeconds: nat
    var nextSourceId: nat

    var saveFlags: GeditDocumentSaver.SaveFlags
    var tmpSaveUri: Option<string>
    var tmpEncoding: Option<Encoding>
    var tmpLinePos: int
    var request: IoRequest

    /** The tab's invariant over the container's states. */
    predicate Valid()
      reads this
    {
      && autoSaveInterval > 0
      && 0 < nextSourceId && autoSaveTimeout < nextSourceId
      && (autoSaveTimeout > 0 ==> autoSave && !IoBusy(state))
      && !saveFlags.ignoreMtime && !saveFlags.preserveBackup
      && ((state == Saving || state == SavingError) <==> tmpSaveUri.Some?)
      && ((state == Saving || state == SavingError) ==> tmpEncoding.Some?)
      && (tmpEncoding.Some? ==> IoBusy(state))
      && (state == ExternallyModifiedNotification ==> askIfExternallyModified)
    }

    /** `gedit_view_container_init` (lines 1727-1810): autosave is on only
        when the preference says so and saving to disk is not locked down;
        a non-positive interval becomes the default one; the container will
        ask about external modifications. */
    constructor(autoSavePref: bool, lockdownSaveToDisk: bool, intervalPref: int, defaultInterval: int,
                encoding: Encoding)
      requires defaultInterval > 0
      ensures Valid() && state == Normal && autoSaveTimeout == 0 && askIfExternallyModified
      ensures autoSave <==> autoSavePref && !lockdownSaveToDisk
      ensures autoSaveInterval == if intervalPref <= 0 then defaultInterval else intervalPref
      ensures saveFlags == GeditDocumentSaver.NoSaveFlags
      ensures doc == GeditTab.DocStatus(None, encoding, false, false, false)
    {
      state := Normal;
      stateNotifications := 0;
      doc := GeditTab.DocStatus(None, encoding, false, false, false);
      hasPrintPreview := false;
      messageArea := GeditTab.NoArea;
      askIfExternallyModified := true;
      saveFlags := GeditDocumentSaver.NoSaveFlags;
      autoSave := autoSavePref && !lockdownSaveToDisk;
      autoSaveInterval := if intervalPref <= 0 then defaultInterval else intervalPref;
      autoSaveTimeout := 0;
      timerPeriodSeconds := 0;
      nextSourceId := 1;
      tmpSaveUri := None;
      tmpEncoding := None;
      tmpLinePos := 0;
      request := GeditTab.NoRequest;
    }

    /** `_gedit_view_container_get_name` (lines 1881-1924) for a document
        whose short display name is `shortName`: the tab's name for it, so
        the name cut in the middle to 40 characters, with a `*` in front
        exactly when the document is modified. */
    function Name(shortName: string): (r: string)
      reads this`doc
      ensures |r| <= GeditTab.MaxDocNameLength + (if doc.modified then 1 else 0)
      ensures doc.modified ==> r == "*" + GeditTab.TabName(shortName, false)
      ensures !doc.modified ==> r == GeditTab.TabName(shortName, false)
    {
      GeditTab.TabName(shortName, doc.modified)
    }

    /** The document changed on its own; the container only reads it. */
    method ObserveDocument(d: DocStatus)
      modifies this`doc
      ensures doc == d
    {
      doc := d;
    }

    /** `gedit_view_container_set_state` (lines 479-510). */
    method SetState(s: ContainerState)
      modifies this`state, this`stateNotifications
      ensures state == s
      ensures stateNotifications == old(stateNotifications) + (if old(state) == s then 0 else 1)
    {
      if state == s {
        return;
      }
      state := s;
      stateNotifications := stateNotifications + 1;
    }

    /** `g_timeout_add_seconds`: a new timer with a fresh, positive id. */
    method AddTimeout(periodSeconds: nat)
      requires nextSourceId > 0
      modifies this`autoSaveTimeout, this`timerPeriodSeconds, this`nextSourceId
      ensures autoSaveTimeout == old(nextSourceId) && nextSourceId == autoSaveTimeout + 1
      ensures timerPeriodSeconds == periodSeconds
    {
      autoSaveTimeout := nextSourceId;
      nextSourceId := nextSourceId + 1;
      timerPeriodSeconds := periodSeconds;
    }

    /** `install_auto_save_timeout`: the interval is in minutes. */
    method InstallAutoSaveTimeout()
      requires autoSaveTimeout == 0 && autoSave && autoSaveInterval > 0 && !IoBusy(state)
      requires nextSourceId > 0
      modifies this`autoSaveTimeout, this`timerPeriodSeconds, this`nextSourceId
      ensures autoSaveTimeout == old(nextSourceId) && nextSourceId == autoSaveTimeout + 1
      ensures timerPeriodSeconds == autoSaveInterval * 60
    {
      AddTimeout(autoSaveInterval * 60);
    }

    /** `install_auto_save_timeout_if_needed`: a container that is closing
        never gets a timer. */
    method InstallIfNeeded() returns (installed: bool)
      requires autoSaveTimeout == 0 && autoSaveInterval > 0 && nextSourceId > 0
      requires state == Normal || state == ShowingPrintPreview || state == Closing
      modifies this`autoSaveTimeout, this`timerPeriodSeconds, this`nextSourceId
      ensures installed <==> state != Closing && GeditTab.WantsTimer(autoSave, doc)
      ensures installed ==> autoSaveTimeout == old(nextSourceId) && nextSourceId == autoSaveTimeout + 1
                            && timerPeriodSeconds == autoSaveInterval * 60
      ensures !installed ==> unchanged(this)
    {
      if state == Closing {
        return false;
      }
      if autoSave && !doc.Untitled() && !doc.readonly {
        InstallAutoSaveTimeout();
        return true;
      }
      return false;
    }

    method RemoveAutoSaveTimeout()
      requires autoSaveTimeout > 0
      modifies this`autoSaveTimeout
      ensures autoSaveTimeout == 0
    {
      autoSaveTimeout := 0;
    }

    /** `_gedit_view_container_load`: only from NORMAL. */
    method Load(uri: string, encoding: Option<Encoding>, linePos: int, create: bool)
      requires Valid() && state == Normal
      modifies this`state, this`stateNotifications, this`tmpLinePos, this`tmpEncoding,
               this`autoSaveTimeout, this`request
      ensures Valid() && state == Loading && autoSaveTimeout == 0
      ensures stateNotifications == old(stateNotifications) + 1
      ensures tmpLinePos == linePos && tmpEncoding == encoding
      ensures request == GeditTab.LoadRequest(uri, encoding, linePos, create)
    {
      SetState(Loading);
      tmpLinePos := linePos;
      tmpEncoding := encoding;
      if autoSaveTimeout > 0 {
        RemoveAutoSaveTimeout();
      }
      request := GeditTab.LoadRequest(uri, encoding, linePos, create);
    }

    /** `_gedit_view_container_revert`: from NORMAL, or from the prompt
        about an external modification, whose message it hides. */
    method Revert()
      requires Valid() && (state == Normal || state == ExternallyModifiedNotification)
      requires !doc.Untitled()
      modifies this`state, this`stateNotifications, this`messageArea, this`tmpLinePos,
               this`tmpEncoding, this`autoSaveTimeout, this`request
      ensures Valid() && state == Reverting && autoSaveTimeout == 0
      ensures stateNotifications == old(stateNotifications) + 1
      ensures old(state) == ExternallyModifiedNotification ==> messageArea == GeditTab.NoArea
      ensures old(state) == Normal ==> messageArea == old(messageArea)
      ensures tmpLinePos == 0 && tmpEncoding == Some(doc.encoding)
      ensures request == GeditTab.LoadRequest(doc.uri.value, Some(doc.encoding), 0, false)
    {
      if state == ExternallyModifiedNotification {
        messageArea := GeditTab.NoArea;
      }
      SetState(Reverting);
      tmpLinePos := 0;
      tmpEncoding := Some(doc.encoding);
      if autoSaveTimeout > 0 {
        RemoveAutoSaveTimeout();
      }
      request := GeditTab.LoadRequest(doc.uri.value, tmpEncoding, 0, false);
    }

    /** `_gedit_view_container_save`: from the prompt, the message is hidden
        and this one save ignores the modification time; the kept flags
        stay as they are. */
    method Save()
      requires Valid() && SaveAllowed(state) && tmpSaveUri.None? && tmpEncoding.None?
      requires !doc.Untitled()
      modifies this`state, this`stateNotifications, this`messageArea, this`tmpSaveUri,
               this`tmpEncoding, this`autoSaveTimeout, this`request
      ensures Valid() && state == Saving && autoSaveTimeout == 0
      ensures stateNotifications == old(stateNotifications) + 1
      ensures old(state) == ExternallyModifiedNotification ==> messageArea == GeditTab.NoArea
      ensures old(state) != ExternallyModifiedNotification ==> messageArea == old(messageArea)
      ensures tmpSaveUri == doc.uri && tmpEncoding == Some(doc.encoding)
      ensures request == GeditTab.SaveRequest(FlagsForSave(old(state), saveFlags))
    {
      var flags := FlagsForSave(state, saveFlags);
      if state == ExternallyModifiedNotification {
        messageArea := GeditTab.NoArea;
      }
      SetState(Saving);
      tmpSaveUri := doc.uri;
      tmpEncoding := Some(doc.encoding);
      if autoSaveTimeout > 0 {
        RemoveAutoSaveTimeout();
      }
      request := GeditTab.SaveRequest(flags);
    }

    /** `gedit_view_container_auto_save`: as the tab's, checking again
        after 30 seconds when the container is busy. */
    method AutoSaveTick() returns (keep: bool)
      requires Valid() && tmpSaveUri.None? && tmpEncoding.None?
      requires !doc.Untitled() && !doc.readonly
      requires autoSaveTimeout > 0 && autoSave && autoSaveInterval > 0
      modifies this`state, this`stateNotifications, this`tmpSaveUri, this`tmpEncoding,
               this`autoSaveTimeout, this`timerPeriodSeconds, this`nextSourceId, this`request
      ensures Valid()
      ensures keep <==> !doc.modified
      ensures !doc.modified ==> unchanged(this)
      ensures doc.modified && old(state) != Normal && old(state) != ShowingPrintPreview ==>
        && state == old(state) && autoSaveTimeout == old(nextSourceId)
        && timerPeriodSeconds == RetryPeriodSeconds && request == old(request)
      ensures doc.modified && (old(state) == Normal || old(state) == ShowingPrintPreview) ==>
        && state == Saving && autoSaveTimeout == 0
        && tmpSaveUri == doc.uri && tmpEncoding == Some(doc.encoding)
        && request == GeditTab.SaveRequest(saveFlags.(preserveBackup := true))
    {
      if !doc.modified {
        return true;
      }
      if state != Normal && state != ShowingPrintPreview {
        AddTimeout(RetryPeriodSeconds);
        return false;
      }
      SetState(Saving);
      tmpSaveUri := doc.uri;
      tmpEncoding := Some(doc.encoding);
      autoSaveTimeout := 0;
      request := GeditTab.SaveRequest(saveFlags.(preserveBackup := true));
      return false;
    }

    /** `_gedit_view_container_save_as`: the kept flags are reset and the
        new file is written with flags from `FlagsForSave`, so that a save
        from the prompt ignores the modification time as a plain save does
        (the source passes the reset flags instead; see
        `SaveAsFlagsAsWritten`). */
    method SaveAs(uri: string, encoding: Encoding)
      requires Valid() && SaveAllowed(state) && tmpSaveUri.None? && tmpEncoding.None?
      modifies this`state, this`stateNotifications, this`messageArea, this`tmpSaveUri,
               this`tmpEncoding, this`saveFlags, this`autoSaveTimeout, this`request
      ensures Valid() && state == Saving && autoSaveTimeout == 0
      ensures stateNotifications == old(stateNotifications) + 1
      ensures old(state) == ExternallyModifiedNotification ==> messageArea == GeditTab.NoArea
      ensures tmpSaveUri == Some(uri) && tmpEncoding == Some(encoding)
      ensures saveFlags == GeditDocumentSaver.NoSaveFlags
      ensures request == GeditTab.SaveAsRequest(uri, encoding, FlagsForSave(old(state), GeditDocumentSaver.NoSaveFlags))
    {
      saveFlags := GeditDocumentSaver.NoSaveFlags;
      var flags := FlagsForSave(state, saveFlags);
      if state == ExternallyModifiedNotification {
        messageArea := GeditTab.NoArea;
      }
      SetState(Saving);
      tmpSaveUri := Some(uri);
      tmpEncoding := Some(encoding);
      if autoSaveTimeout > 0 {
        RemoveAutoSaveTimeout();
      }
      request := GeditTab.SaveAsRequest(uri, encoding, flags);
    }

    /** `document_loaded` (lines 1003-1198): as the tab's, where only an
        I/O cancellation drops the container; a successful load also makes
        the container ask again about external modifications. */
    method DocumentLoaded(failure: Option<Failure>)
      requires Valid() && (state == Loading || state == Reverting) && autoSaveTimeout == 0
      modifies this`state, this`stateNotifications, this`messageArea, this`tmpLinePos,
               this`tmpEncoding, this`autoSaveTimeout, this`timerPeriodSeconds, this`nextSourceId,
               this`askIfExternallyModified
      ensures Valid()
      ensures failure.Some? ==>
        && state == (if old(state) == Loading then LoadingError else RevertingError)
        && autoSaveTimeout == 0 && askIfExternallyModified == old(askIfExternallyModified)
      ensures failure == Some(GeditTab.Failure(GeditTab.IoError, GeditTab.CancelledCode)) ==>
        messageArea == GeditTab.NoArea && tmpLinePos == 0 && tmpEncoding.None?
      ensures failure.Some? && failure != Some(GeditTab.Failure(GeditTab.IoError, GeditTab.CancelledCode)) ==>
        messageArea == GeditTab.LoadingErrorArea && tmpLinePos == old(tmpLinePos) && tmpEncoding == old(tmpEncoding)
      ensures failure.None? ==>
        && state == Normal && messageArea == GeditTab.NoArea && tmpLinePos == 0 && tmpEncoding.None?
        && askIfExternallyModified
        && (autoSaveTimeout > 0 <==> GeditTab.WantsTimer(autoSave, doc))
    {
      messageArea := GeditTab.NoArea;
      if failure.Some? {
        SetState(if state == Loading then LoadingError else RevertingError);
        if failure.value != GeditTab.Failure(GeditTab.IoError, GeditTab.CancelledCode) {
          messageArea := GeditTab.LoadingErrorArea;
          return;
        }
      } else {
        SetState(Normal);
        var _ := InstallIfNeeded();
        askIfExternallyModified := true;
      }
      tmpLinePos := 0;
      tmpEncoding := None;
    }

    /** `end_saving` (lines 1256-1265). */
    method EndSaving()
      requires state == Normal || state == ShowingPrintPreview
      requires autoSaveTimeout == 0 && autoSaveInterval > 0 && nextSourceId > 0
      modifies this`tmpSaveUri, this`tmpEncoding, this`autoSaveTimeout, this`timerPeriodSeconds,
               this`nextSourceId
      ensures tmpSaveUri.None? && tmpEncoding.None?
      ensures autoSaveTimeout > 0 <==> GeditTab.WantsTimer(autoSave, doc)
      ensures autoSaveTimeout < nextSourceId && old(nextSourceId) <= nextSourceId
    {
      tmpSaveUri := None;
      tmpEncoding := None;
      var _ := InstallIfNeeded();
    }

    /** `document_saved`: a successful save also makes the container ask
        again about external modifications. */
    method DocumentSaved(failure: Option<Failure>)
      requires Valid() && state == Saving && tmpSaveUri.Some? && tmpEncoding.Some? && autoSaveTimeout == 0
      modifies this`state, this`stateNotifications, this`messageArea, this`tmpSaveUri,
               this`tmpEncoding, this`autoSaveTimeout, this`timerPeriodSeconds, this`nextSourceId,
               this`askIfExternallyModified
      ensures Valid()
      ensures failure.Some? ==>
        && state == SavingError && messageArea == SavingErrorArea(failure.value)
        && tmpSaveUri == old(tmpSaveUri) && tmpEncoding == old(tmpEncoding) && autoSaveTimeout == 0
        && askIfExternallyModified == old(askIfExternallyModified)
      ensures failure.None? ==>
        && state == (if hasPrintPreview then ShowingPrintPreview else Normal)
        && messageArea == GeditTab.NoArea && tmpSaveUri.None? && askIfExternallyModified
        && (autoSaveTimeout > 0 <==> GeditTab.WantsTimer(autoSave, doc))
    {
      messageArea := GeditTab.NoArea;
      if failure.Some? {
        SetState(SavingError);
        messageArea := SavingErrorArea(failure.value);
      } else {
        SetState(if hasPrintPreview then ShowingPrintPreview else Normal);
        askIfExternallyModified := true;
        EndSaving();
      }
    }

    /** `unrecoverable_saving_error_message_area_response`. */
    method GiveUpSaving()
      requires Valid() && state == SavingError
      modifies this`state, this`stateNotifications, this`messageArea, this`tmpSaveUri,
               this`tmpEncoding, this`autoSaveTimeout, this`timerPeriodSeconds, this`nextSourceId
      ensures Valid()
      ensures state == (if hasPrintPreview then ShowingPrintPreview else Normal)
      ensures messageArea == GeditTab.NoArea && tmpSaveUri.None?
      ensures autoSaveTimeout > 0 <==> GeditTab.WantsTimer(autoSave, doc)
    {
      SetState(if hasPrintPreview then ShowingPrintPreview else Normal);
      EndSaving();
      messageArea := GeditTab.NoArea;
    }

    /** `no_backup_error_message_area_response`: IGNORE_BACKUP is kept. */
    method NoBackupResponse(yes: bool)
      requires Valid() && state == SavingError && messageArea == GeditTab.NoBackupSavingArea
      modifies this`state, this`stateNotifications, this`messageArea, this`tmpSaveUri,
               this`tmpEncoding, this`autoSaveTimeout, this`timerPeriodSeconds, this`nextSourceId,
               this`saveFlags, this`request
      ensures Valid() && messageArea == GeditTab.NoArea
      ensures yes ==>
        && state == Saving && saveFlags == old(saveFlags).(ignoreBackup := true)
        && request == GeditTab.SaveRequest(saveFlags) && tmpSaveUri == old(tmpSaveUri)
      ensures !yes ==>
        && state == (if hasPrintPreview then ShowingPrintPreview else Normal)
        && saveFlags == old(saveFlags) && request == old(request) && tmpSaveUri.None?
    {
      if yes {
        messageArea := GeditTab.NoArea;
        SetState(Saving);
        saveFlags := saveFlags.(ignoreBackup := true);
        request := GeditTab.SaveRequest(saveFlags);
      } else {
        GiveUpSaving();
      }
    }

    /** `externally_modified_error_message_area_response`: IGNORE_MTIME is
        for this save only. */
    method ExternallyModifiedResponse(yes: bool)
      requires Valid() && state == SavingError && messageArea == GeditTab.ExternallyModifiedSavingArea
      modifies this`state, this`stateNotifications, this`messageArea, this`tmpSaveUri,
               this`tmpEncoding, this`autoSaveTimeout, this`timerPeriodSeconds, this`nextSourceId,
               this`request
      ensures Valid() && messageArea == GeditTab.NoArea
      ensures yes ==>
        && state == Saving && request == GeditTab.SaveRequest(saveFlags.(ignoreMtime := true))
        && tmpSaveUri == old(tmpSaveUri)
      ensures !yes ==>
        && state == (if hasPrintPreview then ShowingPrintPreview else Normal)
        && request == old(request) && tmpSaveUri.None?
    {
      if yes {
        messageArea := GeditTab.NoArea;
        SetState(Saving);
        request := GeditTab.SaveRequest(saveFlags.(ignoreMtime := true));
      } else {
        GiveUpSaving();
      }
    }

    /** `recoverable_saving_error_message_area_response`. */
    method ConversionErrorResponse(ok: bool, encoding: Option<Encoding>)
      requires Valid() && state == SavingError && messageArea == GeditTab.ConversionSavingArea
      requires ok ==> encoding.Some?
      modifies this`state, this`stateNotifications, this`messageArea, this`tmpSaveUri,
               this`tmpEncoding, this`autoSaveTimeout, this`timerPeriodSeconds, this`nextSourceId,
               this`request
      ensures Valid() && messageArea == GeditTab.NoArea
      ensures ok ==>
        && state == Saving && tmpEncoding == encoding && tmpSaveUri == old(tmpSaveUri)
        && request == GeditTab.SaveAsRequest(old(tmpSaveUri).value, encoding.value, saveFlags)
      ensures !ok ==>
        && state == (if hasPrintPreview then ShowingPrintPreview else Normal)
        && request == old(request) && tmpSaveUri.None?
    {
      if ok {
        messageArea := GeditTab.NoArea;
        SetState(Saving);
        tmpEncoding := encoding;
        request := GeditTab.SaveAsRequest(tmpSaveUri.value, encoding.value, saveFlags);
      } else {
        GiveUpSaving();
      }
    }

    /** `view_focused_in`: only in NORMAL, while the container still asks,
        for a local file that changed on disk, the prompt is shown. */
    method ViewFocusedIn(isLocal: bool, externallyModified: bool)
      requires Valid()
      modifies this`state, this`stateNotifications, this`messageArea
      ensures Valid()
      ensures old(state) == Normal && askIfExternallyModified && isLocal && externallyModified ==>
        state == ExternallyModifiedNotification && messageArea == GeditTab.ExternallyModifiedNotificationArea
        && stateNotifications == old(stateNotifications) + 1
      ensures !(old(state) == Normal && askIfExternallyModified && isLocal && externallyModified) ==>
        unchanged(this)
    {
      if state != Normal || !askIfExternallyModified || !isLocal {
        return;
      }
      if externallyModified {
        SetState(ExternallyModifiedNotification);
        messageArea := GeditTab.ExternallyModifiedNotificationArea;
      }
    }

    /** `externally_modified_notification_message_area_response`: the user
        either reloads the file or keeps the text, and then is not asked
        again until the next load or save. */
    method NotificationResponse(reload: bool)
      requires Valid() && state == ExternallyModifiedNotification
      requires reload ==> !doc.Untitled()
      modifies this`state, this`stateNotifications, this`messageArea, this`tmpLinePos,
               this`tmpEncoding, this`autoSaveTimeout, this`request, this`askIfExternallyModified
      ensures Valid() && messageArea == GeditTab.NoArea
      ensures reload ==>
        && state == Reverting && autoSaveTimeout == 0 && askIfExternallyModified
        && request == GeditTab.LoadRequest(doc.uri.value, Some(doc.encoding), 0, false)
      ensures !reload ==>
        && state == Normal && !askIfExternallyModified
        && autoSaveTimeout == old(autoSaveTimeout) && request == old(request)
    {
      messageArea := GeditTab.NoArea;
      if reload {
        Revert();
      } else {
        askIfExternallyModified := false;
        SetState(Normal);
      }
    }

    /** `_gedit_view_container_mark_for_closing`. */
    method MarkForClosing()
      requires Valid() && state == Normal
      modifies this`state, this`stateNotifications
      ensures Valid() && state == Closing
      ensures stateNotifications == old(stateNotifications) + 1
    {
      SetState(Closing);
    }

    /** `gedit_view_container_set_auto_save_enabled`: the SAVE_TO_DISK
        lockdown turns every request into a request to disable. */
    method SetAutoSaveEnabled(enable: bool, lockdownSaveToDisk: bool)
      requires Valid()
      modifies this`autoSave, this`autoSaveTimeout, this`timerPeriodSeconds, this`nextSourceId
      ensures Valid()
      ensures autoSave == (enable && !lockdownSaveToDisk)
      ensures old(autoSave) == autoSave ==> unchanged(this)
      ensures !autoSave ==> autoSaveTimeout == 0
      ensures autoSave && !old(autoSave) ==>
        (autoSaveTimeout > 0 <==> !doc.Untitled() && !doc.readonly && !IoBusy(state))
    {
      var e := enable;
      if lockdownSaveToDisk {
        e := false;
      }
      if autoSave == e {
        return;
      }
      autoSave := e;
      if e && autoSaveTimeout == 0 && !doc.Untitled() && !doc.readonly {
        if !IoBusy(state) {
          InstallAutoSaveTimeout();
        }
        return;
      }
      if !e && autoSaveTimeout > 0 {
        RemoveAutoSaveTimeout();
        return;
      }
      assert (!e && autoSaveTimeout == 0) || doc.Untitled() || doc.readonly;
    }

    /** `gedit_view_container_set_auto_save_interval`. */
    method SetAutoSaveInterval(interval: int)
      requires Valid() && interval > 0
      requires interval != autoSaveInterval && autoSave && autoSaveTimeout > 0 ==>
        !doc.Untitled() && !doc.readonly
      modifies this`autoSaveInterval, this`autoSaveTimeout, this`timerPeriodSeconds, this`nextSourceId
      ensures Valid() && autoSaveInterval == interval
      ensures old(autoSaveInterval) == interval ==> unchanged(this)
      ensures old(autoSaveTimeout) == 0 ==> autoSaveTimeout == 0
      ensures old(autoSaveTimeout) > 0 && old(autoSaveInterval) != interval ==>
        autoSaveTimeout == old(nextSourceId) && timerPeriodSeconds == interval * 60
    {
      if autoSaveInterval == interval {
        return;
      }
      autoSaveInterval := interval;
      if !autoSave {
        return;
      }
      if autoSaveTimeout > 0 {
        RemoveAutoSaveTimeout();
        InstallAutoSaveTimeout();
      }
    }
  }
}
