/** The buffered log that goes into files of bounded length. */
module SegmentedLoggers {

  /** The records of all files in order. */
  ghost function Flat(files: seq<seq<string>>): seq<string> {
    if files == [] then [] else Flat(files[..|files| - 1]) + files[|files| - 1]
  }

  lemma FlatAppend(files: seq<seq<string>>, file: seq<string>)
    ensures Flat(files + [file]) == Flat(files) + file
  {
    assert (files + [file])[..|files|] == files;
  }

  /** No file is empty or longer than the limit. */
  ghost predicate Bounded(files: seq<seq<string>>, limit: nat) {
    forall i :: 0 <= i < |files| ==> 0 < |files[i]| <= limit
  }

  lemma BoundedAppend(files: seq<seq<string>>, file: seq<string>, limit: nat)
    requires Bounded(files, limit) && 0 < |file| <= limit
    ensures Bounded(files + [file], limit)
  {}

  /** Closing a file moves its records, and moves nothing else. */
  lemma Rotated(files: seq<seq<string>>, file: seq<string>, records: seq<string>)
    ensures Flat(files + [file]) + ([] + records) == Flat(files) + (file + records)
  {
    FlatAppend(files, file);
    assert (Flat(files) + file) + ([] + records) == Flat(files) + (file + records);
  }

  /** Sequence numbers run from 1 to 9999 and round again. */
  function NextSeqNo(n: nat): nat {
    if n + 1 >= 10000 then 1 else n + 1
  }

  class SegmentedLogger {
    const bufferSize: nat
    const threshold: nat
    var isEnabled: bool
    var records: seq<string>
    var numberOfRecordsInFile: nat
    var fileIsOpen: bool
    var fileSeqNo: nat
    var creationDay: nat  // the day of the month on which the last file was opened

    ghost var closedFiles: seq<seq<string>>
    ghost var openFile: seq<string>
    ghost var logged: seq<string>

    /** Nothing logged is lost, doubled or reordered. */
    ghost predicate Conserved()
      reads this
    {
      Flat(closedFiles) + (openFile + records) == logged
    }

    /** The count is that of the open file, and no file is longer than the threshold or empty. */
    ghost predicate FilesOk()
      reads this
    {
      && threshold > 0
      && numberOfRecordsInFile == |openFile| <= threshold
      && (fileIsOpen <==> openFile != [])
      && Bounded(closedFiles, threshold)
      && 1 <= fileSeqNo < 10000
    }

    /** Between calls the buffer is not full, nor is the open file. */
    ghost predicate Valid()
      reads this
    {
      Conserved() && FilesOk() && |records| < bufferSize && numberOfRecordsInFile < threshold
    }

    constructor (bufferSize: nat, threshold: nat, enabled: bool, day: nat)
      requires bufferSize > 0 && threshold > 0
      ensures Valid() && logged == [] && isEnabled == enabled && creationDay == day
    {
      creationDay := day;
      this.bufferSize, this.threshold, isEnabled := bufferSize, threshold, enabled;
      records, numberOfRecordsInFile, fileIsOpen, fileSeqNo := [], 0, false, 1;
      closedFiles, openFile, logged := [], [], [];
    }

    /** Logs one record. `timeUp` says whether the last write is too long ago, `today` is the day of the
        month at the check and `stamp` the day put on a file opened during the call. */
    method Record(log: string, timeUp: bool, today: nat, stamp: nat)
      requires Valid()
      modifies this
      ensures Valid() && isEnabled == old(isEnabled)
      ensures logged == if isEnabled then old(logged) + [log] else old(logged)
      ensures old(closedFiles) <= closedFiles && |closedFiles| <= |old(closedFiles)| + 1
      ensures isEnabled && timeUp ==> !fileIsOpen
      // on a new day the numbers start again if a file is open or the one opened now bears another date;
      // otherwise they go on as on any day
      ensures isEnabled && old(creationDay) != today ==>
                if old(fileIsOpen) || stamp != today then !fileIsOpen && fileSeqNo == 1
                else fileSeqNo == if closedFiles == old(closedFiles) then old(fileSeqNo) else NextSeqNo(old(fileSeqNo))
      // in that case a buffer that is not full goes into a new file, which is closed at once
      ensures isEnabled && !old(fileIsOpen) && old(creationDay) != today && |old(records)| + 1 < bufferSize ==>
                !fileIsOpen && closedFiles == old(closedFiles) + [(old(records) + [log])[..Fitting(|old(records)| + 1)]]
      // and a full one too, but its file is only closed when full or when the last write is too long ago
      ensures isEnabled && !old(fileIsOpen) && old(creationDay) != today == stamp && |old(records)| + 1 == bufferSize ==>
                (closedFiles != old(closedFiles) <==> timeUp || bufferSize >= threshold)
      // on the same day a file is only closed when it is full, and only touched when the buffer is
      ensures !timeUp && old(creationDay) == today == stamp && closedFiles != old(closedFiles) ==>
                closedFiles != [] && |closedFiles[|closedFiles| - 1]| == threshold
      ensures !timeUp && old(creationDay) == today && |old(records)| + 1 < bufferSize ==>
                closedFiles == old(closedFiles) && openFile == old(openFile)
      // the whole outcome: either one file is closed with as many records as it takes, or a full buffer
      // goes into the open file, or nothing but the buffer changes
      ensures isEnabled ==>
              var all, full := old(openFile) + (old(records) + [log]), |old(records)| + 1 == bufferSize;
              var day := if full && !old(fileIsOpen) then stamp else old(creationDay);
              if (full && |all| >= threshold) || timeUp || day != today then
                && !fileIsOpen && openFile == [] && records == all[Fitting(|all|)..]
                && closedFiles == old(closedFiles) + [all[..Fitting(|all|)]]
                && creationDay == (if old(fileIsOpen) then old(creationDay) else stamp)
                && fileSeqNo == if creationDay == today then NextSeqNo(old(fileSeqNo)) else 1
              else
                && closedFiles == old(closedFiles) && fileSeqNo == old(fileSeqNo) && creationDay == day
                && openFile == (if full then all else old(openFile)) && records == if full then [] else (old(records) + [log])
    {
      hide Flat, Bounded, NextSeqNo;
      if isEnabled {
        assert Flat(closedFiles) + (openFile + (records + [log])) == (Flat(closedFiles) + (openFile + records)) + [log];
        records := records + [log];
        logged := logged + [log];
        CheckForFlush(timeUp, today, stamp);
      }
    }

    method CheckForFlush(timeUp: bool, today: nat, stamp: nat)
      requires Conserved() && FilesOk() && 0 < |records| <= bufferSize && numberOfRecordsInFile < threshold
      modifies this
      ensures Valid() && logged == old(logged) && isEnabled == old(isEnabled)
      ensures old(closedFiles) <= closedFiles && |closedFiles| <= |old(closedFiles)| + 1
      ensures timeUp ==> !fileIsOpen
      ensures old(creationDay) != today ==>
                if old(fileIsOpen) || stamp != today then !fileIsOpen && fileSeqNo == 1
                else fileSeqNo == if closedFiles == old(closedFiles) then old(fileSeqNo) else NextSeqNo(old(fileSeqNo))
      ensures !old(fileIsOpen) && old(creationDay) != today && |old(records)| < bufferSize ==>
                !fileIsOpen && closedFiles == old(closedFiles) + [old(records)[..Fitting(|old(records)|)]]
      ensures !old(fileIsOpen) && old(creationDay) != today == stamp && |old(records)| == bufferSize ==>
                (closedFiles != old(closedFiles) <==> timeUp || bufferSize >= threshold)
      ensures !timeUp && old(creationDay) == today == stamp && closedFiles != old(closedFiles) ==>
                closedFiles != [] && |closedFiles[|closedFiles| - 1]| == threshold
      ensures !timeUp && old(creationDay) == today && |old(records)| < bufferSize ==>
                closedFiles == old(closedFiles) && openFile == old(openFile)
      // the whole outcome: either one file is closed with as many records as it takes, or a full buffer
      // goes into the open file, or nothing but the buffer changes
      ensures var all, full := old(openFile) + old(records), |old(records)| == bufferSize;
              var day := if full && !old(fileIsOpen) then stamp else old(creationDay);
              if (full && |all| >= threshold) || timeUp || day != today then
                && !fileIsOpen && openFile == [] && records == all[Fitting(|all|)..]
                && closedFiles == old(closedFiles) + [all[..Fitting(|all|)]]
                && creationDay == (if old(fileIsOpen) then old(creationDay) else stamp)
                && fileSeqNo == if creationDay == today then NextSeqNo(old(fileSeqNo)) else 1
              else
                && closedFiles == old(closedFiles) && fileSeqNo == old(fileSeqNo) && creationDay == day
                && openFile == (if full then all else old(openFile)) && records == if full then [] else old(records)
    {
      hide Flat, Bounded, NextSeqNo;
      assert !fileIsOpen ==> openFile + records == records;
      if |records| >= bufferSize {
        WriteBufferToFile(stamp);
      }
      if numberOfRecordsInFile >= threshold || timeUp || today != creationDay {
        WriteBufferToFile(stamp);
        CloseFile();
        numberOfRecordsInFile := 0;
        if today != creationDay {
          fileSeqNo := 1;
        }
      }
    }

    /** How many of `n` records a new file takes. */
    function Fitting(n: nat): nat {
      if n < threshold then n else threshold
    }

    /** Moves records from the buffer to the open file, as many as the file still takes. */
    method WriteBufferToFile(stamp: nat)
      requires Conserved() && FilesOk() && (openFile == [] ==> numberOfRecordsInFile < threshold)
      modifies this
      ensures Conserved() && FilesOk() && logged == old(logged) && closedFiles == old(closedFiles)
      ensures isEnabled == old(isEnabled) && fileSeqNo == old(fileSeqNo)
      ensures |records| <= |old(records)| && old(numberOfRecordsInFile) <= numberOfRecordsInFile
      ensures old(records) != [] && old(numberOfRecordsInFile) < threshold ==> |records| < |old(records)|
      ensures records == [] || numberOfRecordsInFile == threshold
      ensures var all := old(openFile) + old(records);
              openFile == all[..Fitting(|all|)] && records == all[Fitting(|all|)..]
      ensures fileIsOpen <==> old(fileIsOpen) || old(records) != []
      ensures creationDay == if !old(fileIsOpen) && old(records) != [] then stamp else old(creationDay)
    {
      if records == [] {
        assert openFile + [] == openFile;
        return;
      }
      if !fileIsOpen {
        fileIsOpen := true;
        creationDay := stamp;
      }
      var room := threshold - numberOfRecordsInFile;
      var count := if |records| < room then |records| else room;
      ghost var file, all := openFile, records;
      for i := 0 to count
        invariant openFile == file + all[..i] && numberOfRecordsInFile == |file| + i
        invariant records == all && fileIsOpen && logged == old(logged) && closedFiles == old(closedFiles)
        invariant isEnabled == old(isEnabled) && fileSeqNo == old(fileSeqNo)
        invariant creationDay == if !old(fileIsOpen) then stamp else old(creationDay)
      {
        openFile := openFile + [records[i]];
        numberOfRecordsInFile := numberOfRecordsInFile + 1;
      }
      assert (file + all[..count]) + all[count..] == file + all;
      records := records[count..];
    }

    /** Closes the open file, if there is one. */
    method CloseFile()
      requires Conserved() && FilesOk()
      modifies this
      ensures Conserved() && FilesOk() && !fileIsOpen && openFile == [] && records == old(records)
      ensures logged == old(logged) && isEnabled == old(isEnabled)
      ensures closedFiles == if old(fileIsOpen) then old(closedFiles) + [old(openFile)] else old(closedFiles)
      ensures fileSeqNo == if old(fileIsOpen) then NextSeqNo(old(fileSeqNo)) else old(fileSeqNo)
      ensures old(fileIsOpen) && old(fileSeqNo) < 9999 ==> fileSeqNo == old(fileSeqNo) + 1
      ensures old(fileIsOpen) && old(fileSeqNo) == 9999 ==> fileSeqNo == 1
      ensures creationDay == old(creationDay)
    {
      if !fileIsOpen {
        return;
      }
      hide Flat, Bounded;
      Rotated(closedFiles, openFile, records);
      BoundedAppend(closedFiles, openFile, threshold);
      closedFiles := closedFiles + [openFile];
      openFile := [];
      fileIsOpen := false;
      numberOfRecordsInFile := 0;
      fileSeqNo := fileSeqNo + 1;
      if fileSeqNo >= 10000 {
        fileSeqNo := 1;
      }
    }
  }
}
