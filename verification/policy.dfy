/**
 The persisted policy: the autoload-on-boot flag and the manual KMI
 override, each a one-line file under the daemon's base directory, and the
 kernel's osrelease file that the KMI resolver reads. A file that is
 absent (or cannot be opened) has no entry in the store.
 */
module Policy {
  import opened Common
  import opened Text

  /** The files the lifecycle code reads or writes; their paths are
      compile-time constants of defs.hpp, which is not part of this model. */
  datatype KeyFile = AutoloadFile | KmiOverrideFile | OsReleaseFile

  /** The contents of every file that exists and is readable. */
  type Store = map<KeyFile, string>

  /** A store after an operation that may change it, with the operation's verdict. */
  datatype Update = Update(ok: bool, store: Store)

  /** How the file system answers one write: whether the base directory
      exists or can be created, whether the file opens for writing, when
      the stream goes bad while writing, how many bytes reached the file
      first, and whether the buffered bytes are lost when the stream is
      flushed and closed. The close happens after `write_file` has already
      reported the stream's state, so a loss there goes unreported. */
  datatype WriteFaults = WriteFaults(baseDirOk: bool, opens: bool, failsAfter: Option<nat>, lostOnClose: bool)

  /** `write_file` reports success. */
  predicate WriteSucceeds(io: WriteFaults) {
    io.baseDirOk && io.opens && io.failsAfter.None?
  }

  /** The write reports success and its content also survives the close. */
  predicate WriteDurable(io: WriteFaults) {
    WriteSucceeds(io) && !io.lostOnClose
  }

  /** `read_file_first_line`: the first line of the file, `""` when it is
      missing, unreadable or empty. */
  function ReadFirstLine(store: Store, f: KeyFile): (line: string)
    ensures '\n' !in line
    ensures f !in store ==> line == ""
  {
    if f in store then FirstLine(store[f]) else ""
  }

  /** `ensure_base_dir` followed by `write_file`: the file is truncated on
      open and then receives `content`, all of it or, when the stream fails,
      only the bytes written before the failure. A reported success whose
      buffered content is lost on close leaves the file truncated. */
  function WriteKeyFile(store: Store, f: KeyFile, content: string, io: WriteFaults): (r: Update)
    ensures r.ok <==> WriteSucceeds(io)
    ensures WriteDurable(io) ==> r.store == store[f := content]
    ensures r.ok && io.lostOnClose ==> r.store == store[f := ""]
    ensures !(io.baseDirOk && io.opens) ==> r.store == store
    ensures io.baseDirOk && io.opens ==> f in r.store && |r.store[f]| <= |content|
    ensures r.store - {f} == store - {f}
  {
    if !io.baseDirOk || !io.opens then Update(false, store)
    else match io.failsAfter
      case None =>
        Update(true, store[f := if io.lostOnClose then "" else content])
      case Some(n) =>
        var written := if n < |content| then content[..n] else content;
        Update(false, store[f := written])
  }

  // ---- autoload flag ----

  /** The spellings of "enabled" that the autoload file may hold. */
  predicate IsOnWord(line: string) {
    line == "1" || line == "on" || line == "true"
  }

  /** `lkm_get_autoload`: enabled by default, when the file is missing or
      its first line is empty, and otherwise enabled exactly for the words
      `1`, `on` and `true`. */
  function GetAutoload(store: Store): (on: bool)
    ensures AutoloadFile !in store ==> on
    ensures AutoloadFile in store && store[AutoloadFile] == "" ==> on
    ensures on <==> ReadFirstLine(store, AutoloadFile) == "" || IsOnWord(ReadFirstLine(store, AutoloadFile))
  {
    var v := ReadFirstLine(store, AutoloadFile);
    v == "" || IsOnWord(v)
  }

  /** `lkm_set_autoload`: writes `1` or `0`; when the write is durable the
      flag reads back as the value set, and no other file changes. A
      reported success whose content is lost on close leaves an empty file,
      which reads as enabled whatever was set. */
  function SetAutoload(store: Store, on: bool, io: WriteFaults): (r: Update)
    ensures r.ok <==> WriteSucceeds(io)
    ensures WriteDurable(io) ==> GetAutoload(r.store) == on
    ensures r.ok && io.lostOnClose ==> GetAutoload(r.store)
    ensures r.store - {AutoloadFile} == store - {AutoloadFile}
  {
    WriteKeyFile(store, AutoloadFile, if on then "1" else "0", io)
  }

  // ---- KMI override ----

  /** `lkm_get_kmi_override`: the first line of the override file, `""` when there is none. */
  function GetKmiOverride(store: Store): (kmi: string)
    ensures '\n' !in kmi
    ensures KmiOverrideFile !in store ==> kmi == ""
    ensures KmiOverrideFile in store ==> kmi == FirstLine(store[KmiOverrideFile])
  {
    ReadFirstLine(store, KmiOverrideFile)
  }

  /** `lkm_set_kmi_override`: a durable write reads back as the value set
      when it holds no newline, and as its first line otherwise; a reported
      success whose content is lost on close reads back as no override. */
  function SetKmiOverride(store: Store, kmi: string, io: WriteFaults): (r: Update)
    ensures r.ok <==> WriteSucceeds(io)
    ensures WriteDurable(io) && '\n' !in kmi ==> GetKmiOverride(r.store) == kmi
    ensures WriteDurable(io) ==> GetKmiOverride(r.store) == FirstLine(kmi)
    ensures r.ok && io.lostOnClose ==> GetKmiOverride(r.store) == ""
    ensures r.store - {KmiOverrideFile} == store - {KmiOverrideFile}
  {
    WriteKeyFile(store, KmiOverrideFile, kmi, io)
  }

  /** `lkm_clear_kmi_override`: `unlink` of the override file. `denied` is
      the errno of an `unlink` that fails whatever the store holds (a
      read-only mount, a permission error, a missing directory); with `None`
      the `unlink` removes the file, or reports ENOENT when there is none.
      ENOENT, from either source, counts as success like a removal; any
      other error is failure. */
  function ClearKmiOverride(store: Store, denied: Option<int>): (r: Update)
    ensures denied.None? ==> r.ok && KmiOverrideFile !in r.store && GetKmiOverride(r.store) == ""
    ensures denied.Some? ==> r.store == store && (r.ok <==> denied.value == ENOENT)
    ensures r.store - {KmiOverrideFile} == store - {KmiOverrideFile}
  {
    var unlinked: SysResult :=
      if denied.Some? then Fail(denied.value)
      else if KmiOverrideFile in store then Done
      else Fail(ENOENT);
    var after := if unlinked.Done? then store - {KmiOverrideFile} else store;
    Update(unlinked.Done? || unlinked.errno == ENOENT, after)
  }

  /** Setting an override, then clearing it, leaves no override: the
      resolver is consulted again. */
  lemma {:induction false} ClearUndoesSet(store: Store, kmi: string, io: WriteFaults)
    requires SetKmiOverride(store, kmi, io).ok
    ensures GetKmiOverride(ClearKmiOverride(SetKmiOverride(store, kmi, io).store, None).store) == ""
    ensures ClearKmiOverride(SetKmiOverride(store, kmi, io).store, None).store - {KmiOverrideFile}
         == store - {KmiOverrideFile}
  {
  }

  /** The two policy files are independent: writing one never changes what the other reads. */
  lemma PolicyFilesIndependent(store: Store, on: bool, kmi: string, io: WriteFaults)
    ensures GetKmiOverride(SetAutoload(store, on, io).store) == GetKmiOverride(store)
    ensures GetAutoload(SetKmiOverride(store, kmi, io).store) == GetAutoload(store)
    ensures GetAutoload(ClearKmiOverride(store, None).store) == GetAutoload(store)
  {
    var a := SetAutoload(store, on, io).store;
    assert KmiOverrideFile in a <==> KmiOverrideFile in store by {
      assert KmiOverrideFile in a - {AutoloadFile} <==> KmiOverrideFile in store - {AutoloadFile};
    }
    if KmiOverrideFile in store {
      assert a[KmiOverrideFile] == (a - {AutoloadFile})[KmiOverrideFile];
    }
    var k := SetKmiOverride(store, kmi, io).store;
    assert AutoloadFile in k <==> AutoloadFile in store by {
      assert AutoloadFile in k - {KmiOverrideFile} <==> AutoloadFile in store - {KmiOverrideFile};
    }
    if AutoloadFile in store {
      assert k[AutoloadFile] == (k - {KmiOverrideFile})[AutoloadFile];
    }
    var c := ClearKmiOverride(store, None).store;
    assert AutoloadFile in c <==> AutoloadFile in store by {
      assert AutoloadFile in c - {KmiOverrideFile} <==> AutoloadFile in store - {KmiOverrideFile};
    }
    if AutoloadFile in store {
      assert c[AutoloadFile] == (c - {KmiOverrideFile})[AutoloadFile];
    }
  }
}
