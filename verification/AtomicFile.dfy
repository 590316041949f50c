/** `atomic_file.py` over a file system whose directory and data reach the disk only when they are synchronised. */
module AtomicFile {
  import opened Options

  type Inode = nat

  type Bytes = seq<bv8>

  type Link = Option<Inode>

  /**
   * One directory and its files. `entries` and `data` are what running programs see. `earlier` records, for every
   * name changed since the last directory sync, what it linked to before: a crash may leave any of those links.
   * `synced` holds the contents known to be on disk; a file that is not in it may be found with any contents.
   */
  datatype Disk = Disk(entries: map<string, Inode>, earlier: map<string, set<Link>>, data: map<Inode, Bytes>, synced: map<Inode, Bytes>, next: Inode) {

    ghost predicate Valid() {
      && (forall n | n in entries :: entries[n] in data)
      && (forall n | n in earlier :: forall i | Some(i) in earlier[n] :: i < next)
      && (forall i | i in data :: i < next)
      && (forall i | i in synced :: i in data && data[i] == synced[i])
    }

    function Current(name: string): Link {
      if name in entries then Some(entries[name]) else None
    }

    /** The links that a crash may leave under a name. */
    function MayLink(name: string): set<Link> {
      (if name in earlier then earlier[name] else {}) + {Current(name)}
    }

    /** What a program reads under a name now. */
    function Read(name: string): Option<Bytes>
      requires Valid()
    {
      if name in entries then Some(data[entries[name]]) else None
    }

    /** What may be read under a name after a crash now. */
    ghost predicate MayRead(name: string, r: Option<Bytes>) {
      if r == None then None in MayLink(name)
      else exists i :: Some(i) in MayLink(name) && (i in synced ==> synced[i] == r.value)
    }

    /** One name's link changes; until the directory is synchronised the old link may come back. */
    function Relink(name: string, link: Link): (r: Disk) {
      this.(entries := if link == None then entries - {name} else entries[name := link.value],
            earlier := earlier[name := MayLink(name)])
    }

    lemma RelinkFacts(name: string, link: Link)
      ensures var r := Relink(name, link);
        && r.Current(name) == link && r.MayLink(name) == MayLink(name) + {link}
        && forall n | n != name :: r.Current(n) == Current(n) && r.MayLink(n) == MayLink(n)
    {
    }
  }

  datatype SyncResult = Synced | Unsupported | Failed

  /** `Returned(durable)`: whether the directory sync took place. `Raised(clean)`: whether the cleanup unlink succeeded. */
  datatype Outcome = Returned(durable: bool) | Raised(clean: bool)

  // ---- what a call may do to the disk ----------------------------------------------------

  /** A link that existed at the start, or one to a new file whose contents are complete and already on disk. */
  ghost predicate OldOrComplete(start: Disk, d: Disk, name: string, content: Bytes, link: Link) {
    link in start.MayLink(name)
    || (link.Some? && link.value >= start.next && link.value in d.synced && d.synced[link.value] == content)
  }

  /**
   * A crash may leave under this name what it could have left at the start, or the complete new content, and under
   * every other name of the start only what it could have left then.
   */
  ghost predicate OldOrNew(start: Disk, d: Disk, name: string, content: Bytes) {
    && (forall i | i < start.next :: (i in d.synced <==> i in start.synced) && (i in d.synced ==> d.synced[i] == start.synced[i]))
    && (forall link | link in d.MayLink(name) :: OldOrComplete(start, d, name, content, link))
    && (forall n | n in start.entries && n != name :: d.MayLink(n) <= start.MayLink(n))
  }

  /** After a crash the name shows what a crash before the call could have shown, or the complete new content. */
  lemma CrashShowsOldOrNew(start: Disk, d: Disk, name: string, content: Bytes, r: Option<Bytes>)
    requires start.Valid() && OldOrNew(start, d, name, content) && d.MayRead(name, r)
    ensures start.MayRead(name, r) || r == Some(content)
  {
    if r == None {
      assert OldOrComplete(start, d, name, content, None);
    } else {
      var i :| Some(i) in d.MayLink(name) && (i in d.synced ==> d.synced[i] == r.value);
      assert OldOrComplete(start, d, name, content, Some(i));
      if Some(i) in start.MayLink(name) {
        assert i < start.next;
      }
    }
  }

  /** No other name shows after a crash what it could not have shown before the call. */
  lemma CrashSparesOtherNames(start: Disk, d: Disk, name: string, content: Bytes, other: string, r: Option<Bytes>)
    requires start.Valid() && OldOrNew(start, d, name, content)
    requires other in start.entries && other != name && d.MayRead(other, r)
    ensures start.MayRead(other, r)
  {
    assert d.MayLink(other) <= start.MayLink(other);
    if r.Some? {
      var i :| Some(i) in d.MayLink(other) && (i in d.synced ==> d.synced[i] == r.value);
      assert Some(i) in start.MayLink(other) && i < start.next;
    }
  }

  /** A crash can only show the new content. */
  ghost predicate OnlyNew(d: Disk, name: string, content: Bytes) {
    forall r | d.MayRead(name, r) :: r == Some(content)
  }

  lemma OnlyNewOnceSynced(d: Disk, fd: Inode, name: string, content: Bytes)
    requires d.MayLink(name) == {Some(fd)} && fd in d.synced && d.synced[fd] == content
    ensures OnlyNew(d, name, content)
  {
  }

  lemma StartIsOld(start: Disk, name: string, content: Bytes)
    ensures OldOrNew(start, start, name, content)
  {
  }

  /** A step that shows no new link under this name and leaves all files but one new, unlinked one alone. */
  lemma StaysOldOrNew(start: Disk, d: Disk, d': Disk, fd: Inode, name: string, content: Bytes)
    requires OldOrNew(start, d, name, content) && start.next <= fd && Some(fd) !in d'.MayLink(name)
    requires d'.MayLink(name) <= d.MayLink(name)
    requires forall n | n in start.entries && n != name :: d'.MayLink(n) <= d.MayLink(n)
    requires forall i | i != fd :: (i in d'.synced <==> i in d.synced) && (i in d'.synced ==> d'.synced[i] == d.synced[i])
    ensures OldOrNew(start, d', name, content)
  {
    forall link | link in d'.MayLink(name) ensures OldOrComplete(start, d', name, content, link) {
      assert OldOrComplete(start, d, name, content, link);
    }
  }

  /** Putting a complete, synchronised new file under this name, and perhaps forgetting earlier links. */
  lemma BecomesNew(start: Disk, d: Disk, d': Disk, fd: Inode, name: string, content: Bytes)
    requires OldOrNew(start, d, name, content) && start.next <= fd
    requires fd in d.synced && d.synced[fd] == content
    requires d'.MayLink(name) <= d.MayLink(name) + {Some(fd)} && d'.synced == d.synced
    requires forall n | n in start.entries && n != name :: d'.MayLink(n) <= d.MayLink(n)
    ensures OldOrNew(start, d', name, content)
  {
    forall link | link in d'.MayLink(name) ensures OldOrComplete(start, d', name, content, link) {
      if link != Some(fd) { assert OldOrComplete(start, d, name, content, link); }
    }
  }

  /** The temporary file stands beside everything that was there at the start, and nothing shows it under the target name. */
  ghost predicate Staged(start: Disk, d: Disk, tmp: string, fd: Inode, name: string) {
    && tmp !in start.entries && tmp != name && d.entries == start.entries[tmp := fd]
    && fd == start.next && fd !in start.data && Some(fd) !in d.MayLink(name)
    && KeepsFiles(start, d) && fd in d.data
  }

  ghost predicate KeepsFiles(start: Disk, d: Disk) {
    forall i | i in start.data :: i in d.data && d.data[i] == start.data[i]
  }

  /** The new file's contents change, and with them what is known of it on disk; nothing else. */
  lemma FillingKeepsStaged(start: Disk, d: Disk, d': Disk, tmp: string, fd: Inode, name: string, content: Bytes)
    requires Staged(start, d, tmp, fd, name) && OldOrNew(start, d, name, content)
    requires d'.entries == d.entries && d'.earlier == d.earlier && fd in d'.data
    requires forall i | i in d.data && i != fd :: i in d'.data && d'.data[i] == d.data[i]
    requires forall i | i != fd :: (i in d'.synced <==> i in d.synced) && (i in d'.synced ==> d'.synced[i] == d.synced[i])
    ensures Staged(start, d', tmp, fd, name) && OldOrNew(start, d', name, content)
  {
    assert d'.MayLink(name) == d.MayLink(name);
    StaysOldOrNew(start, d, d', fd, name, content);
  }

  /** A rename gives the target one more link and no name but the temporary one any other. */
  lemma RenameLinks(d: Disk, d': Disk, tmp: string, fd: Inode, name: string)
    requires tmp != name && d' == d.Relink(tmp, None).Relink(name, Some(fd))
    ensures d'.MayLink(name) == d.MayLink(name) + {Some(fd)}
    ensures forall n | n != name && n != tmp :: d'.MayLink(n) == d.MayLink(n)
  {
    d.RelinkFacts(tmp, None);
    d.Relink(tmp, None).RelinkFacts(name, Some(fd));
  }

  lemma RenameEntries(start: Disk, d: Disk, d': Disk, tmp: string, fd: Inode, name: string)
    requires tmp !in start.entries && tmp != name && d.entries == start.entries[tmp := fd]
    requires d' == d.Relink(tmp, None).Relink(name, Some(fd))
    ensures d'.entries == start.entries[name := fd]
  {
  }

  /** The rename puts the complete file in the target's place. */
  lemma RenamingIsSafe(start: Disk, d: Disk, d': Disk, tmp: string, fd: Inode, name: string, content: Bytes)
    requires Staged(start, d, tmp, fd, name) && OldOrNew(start, d, name, content)
    requires fd in d.synced && d.synced[fd] == content
    requires d' == d.Relink(tmp, None).Relink(name, Some(fd))
    ensures OldOrNew(start, d', name, content)
  {
    RenameLinks(d, d', tmp, fd, name);
    BecomesNew(start, d, d', fd, name, content);
  }

  /** The directory sync leaves a crash nothing but the new link. */
  lemma SyncingIsFinal(start: Disk, d: Disk, d': Disk, fd: Inode, name: string, content: Bytes)
    requires OldOrNew(start, d, name, content) && start.next <= fd
    requires d.Current(name) == Some(fd) && fd in d.synced && d.synced[fd] == content
    requires d' == d || d' == d.(earlier := map[])
    ensures OldOrNew(start, d', name, content) && (d' == d.(earlier := map[]) ==> OnlyNew(d', name, content))
  {
    BecomesNew(start, d, d', fd, name, content);
    if d' == d.(earlier := map[]) {
      assert d'.MayLink(name) == {Some(fd)};
      OnlyNewOnceSynced(d', fd, name, content);
    }
  }

  /** Removing the temporary file. */
  lemma RemovingIsSafe(start: Disk, d: Disk, d': Disk, tmp: string, fd: Inode, name: string, content: Bytes)
    requires Staged(start, d, tmp, fd, name) && OldOrNew(start, d, name, content) && d' == d.Relink(tmp, None)
    ensures OldOrNew(start, d', name, content)
  {
    d.RelinkFacts(tmp, None);
    StaysOldOrNew(start, d, d', fd, name, content);
  }

  lemma RemovingEntries(start: Disk, d: Disk, d': Disk, tmp: string, fd: Inode)
    requires tmp !in start.entries && d.entries == start.entries[tmp := fd] && d' == d.Relink(tmp, None)
    ensures d'.entries == start.entries
  {
  }

  /** What programs see: the target's content is one of the two, and no other name shows anything else than before. */
  ghost predicate Shows(start: Disk, d: Disk, name: string, r: Option<Bytes>)
    requires start.Valid() && d.Valid()
  {
    && start.entries.Keys <= d.entries.Keys && d.Read(name) == r
    && forall n | n in start.entries && n != name :: d.Read(n) == start.Read(n)
  }

  lemma ShowsNew(start: Disk, d: Disk, fd: Inode, name: string, content: Bytes)
    requires start.Valid() && d.Valid() && KeepsFiles(start, d)
    requires d.entries == start.entries[name := fd] && fd in d.data && d.data[fd] == content
    ensures Shows(start, d, name, Some(content)) && d.entries.Keys == start.entries.Keys + {name}
  {
  }

  lemma ShowsOld(start: Disk, d: Disk, tmp: string, fd: Inode, name: string)
    requires start.Valid() && d.Valid() && KeepsFiles(start, d) && tmp !in start.entries && tmp != name
    requires d.entries == start.entries || d.entries == start.entries[tmp := fd]
    ensures Shows(start, d, name, start.Read(name))
  {
  }

  /** The file stands under the target's name, and nothing under the temporary one. */
  ghost predicate InPlace(start: Disk, d: Disk, tmp: string, fd: Inode, name: string, content: Bytes)
    requires start.Valid() && d.Valid()
  {
    && d.entries == start.entries[name := fd] && d.entries.Keys == start.entries.Keys + {name} && tmp !in d.entries
    && Shows(start, d, name, Some(content))
  }

  // ---- many calls -------------------------------------------------------------------------

  /** One call, finished or struck by a crash; `durable` if it returned after synchronising the directory. */
  datatype Call = Call(start: Disk, name: string, content: Bytes, finish: Disk, durable: bool) {

    ghost predicate Promised() {
      && start.Valid() && OldOrNew(start, finish, name, content)
      && (durable ==> OnlyNew(finish, name, content))
    }
  }

  ghost predicate Follows(c: Call, next: Call) {
    c.finish == next.start && c.start.entries.Keys <= next.start.entries.Keys
  }

  /** Each call starts from the disk its predecessor left; the last one may have been cut short. */
  ghost predicate Consecutive(calls: seq<Call>) {
    && (forall k | 0 <= k < |calls| :: calls[k].Promised())
    && (forall j, k | 0 <= j && k == j + 1 < |calls| :: Follows(calls[j], calls[k]))
  }

  lemma OneMoreCall(calls: seq<Call>, call: Call)
    requires Consecutive(calls) && call.Promised() && (calls != [] ==> Follows(calls[|calls| - 1], call))
    ensures Consecutive(calls + [call])
  {
  }

  /** A crash in the middle of a call is the end of a run whose last call was cut short. */
  lemma CallCutShort(calls: seq<Call>, start: Disk, name: string, content: Bytes, trace: seq<Disk>, from: nat)
    requires Consecutive(calls) && start.Valid()
    requires calls != [] ==> var last := calls[|calls| - 1]; last.finish == start && last.start.entries.Keys <= start.entries.Keys
    requires forall k | from <= k < |trace| :: OldOrNew(start, trace[k], name, content)
    ensures forall k | from <= k < |trace| :: Consecutive(calls + [Call(start, name, content, trace[k], false)])
  {
    forall k | from <= k < |trace| ensures Consecutive(calls + [Call(start, name, content, trace[k], false)]) {
      CallFinished(calls, start, name, content, trace[k], false);
    }
  }

  lemma CallFinished(calls: seq<Call>, start: Disk, name: string, content: Bytes, finish: Disk, durable: bool)
    requires Consecutive(calls) && start.Valid() && OldOrNew(start, finish, name, content)
    requires calls != [] ==> var last := calls[|calls| - 1]; last.finish == start && last.start.entries.Keys <= start.entries.Keys
    requires durable ==> OnlyNew(finish, name, content)
    ensures Consecutive(calls + [Call(start, name, content, finish, durable)])
  {
    OneMoreCall(calls, Call(start, name, content, finish, durable));
  }

  /** No call from this one on has replaced the file for good. */
  ghost predicate NoneDurable(calls: seq<Call>, from: nat, name: string) {
    forall j | from <= j < |calls| :: !(calls[j].durable && calls[j].name == name)
  }

  /** This call wrote this content, and no later one has replaced it for good. */
  ghost predicate Stands(calls: seq<Call>, k: nat, name: string, r: Option<Bytes>) {
    k < |calls| && calls[k].name == name && r == Some(calls[k].content) && NoneDurable(calls, k + 1, name)
  }

  /**
   * After any run of calls on any files, cut short anywhere, a crash shows an existing file as some whole version:
   * the last one that was made durable or one written since, or what it could have shown before all of them.
   */
  lemma CrashShowsAWholeVersion(calls: seq<Call>, name: string, r: Option<Bytes>)
    requires Consecutive(calls) && calls != [] && name in calls[0].start.entries
    requires calls[|calls| - 1].finish.MayRead(name, r)
    ensures (exists k :: Stands(calls, k, name, r)) || (calls[0].start.MayRead(name, r) && NoneDurable(calls, 0, name))
  {
    TraceBack(calls, |calls| - 1, name, r);
  }

  lemma {:induction false} TraceBack(calls: seq<Call>, n: nat, name: string, r: Option<Bytes>)
    requires n < |calls| && Consecutive(calls) && name in calls[0].start.entries
    requires calls[n].finish.MayRead(name, r) && NoneDurable(calls, n + 1, name)
    ensures (exists k :: Stands(calls, k, name, r)) || (calls[0].start.MayRead(name, r) && NoneDurable(calls, 0, name))
  {
    OneCall(calls, n, name, r);
    if calls[n].name == name && r == Some(calls[n].content) {
      assert Stands(calls, n, name, r);
    } else {
      assert NoneDurable(calls, n, name);
      if n > 0 { TraceBack(calls, n - 1, name, r); }
    }
  }

  lemma OneCall(calls: seq<Call>, n: nat, name: string, r: Option<Bytes>)
    requires n < |calls| && Consecutive(calls) && name in calls[0].start.entries
    requires calls[n].finish.MayRead(name, r)
    ensures var c := calls[n]; (c.name == name && r == Some(c.content)) || (c.start.MayRead(name, r) && !(c.durable && c.name == name))
    ensures n > 0 ==> calls[n - 1].finish == calls[n].start
  {
    NameStays(calls, n, name);
    var c := calls[n];
    assert c.Promised();
    if c.name == name {
      CrashShowsOldOrNew(c.start, c.finish, name, c.content, r);
    } else {
      CrashSparesOtherNames(c.start, c.finish, c.name, c.content, name, r);
    }
    if n > 0 { assert Follows(calls[n - 1], calls[n]); }
  }

  lemma {:induction false} NameStays(calls: seq<Call>, k: nat, name: string)
    requires Consecutive(calls) && k < |calls| && name in calls[0].start.entries
    ensures name in calls[k].start.entries
  {
    if k > 0 {
      NameStays(calls, k - 1, name);
      assert Follows(calls[k - 1], calls[k]);
    }
  }

  /** The permission bits of a file made by `mkstemp`: reading and writing by the owner. */
  const OWNER_ONLY: nat := 0x180

  /** The mode that a call asks for, or else that of the temporary file. */
  function Chosen(mode: Option<nat>): nat {
    if mode.Some? then mode.value else OWNER_ONLY
  }

  // ---- the file system as an object: every operation may fail -------------------------------

  class FileSystem {
    /** The platform and the file system synchronise directories. */
    const syncsDirectories: bool
    var disk: Disk
    var open: set<Inode>
    /** The permission bits of files. */
    var modes: map<Inode, nat>
    /** Every disk state so far: a crash may strike at any of them. */
    ghost var trace: seq<Disk>
    /** Every call so far that wrote a file. */
    ghost var calls: seq<Call>
    /** How many operations have failed so far, but for removals, and how many removals. */
    ghost var faults: nat
    ghost var failedRemovals: nat

    ghost predicate Valid()
      reads this
    {
      disk.Valid() && trace != [] && trace[|trace| - 1] == disk && forall fd | fd in open :: fd < disk.next
    }

    /** The calls so far kept their promises, one after the other, and the last of them left the disk as it is. */
    ghost predicate Recorded()
      reads this
    {
      && Valid() && Consecutive(calls)
      && (calls != [] ==> var last := calls[|calls| - 1]; last.finish == disk && last.start.entries.Keys <= disk.entries.Keys)
    }

    constructor (disk: Disk, modes: map<Inode, nat>, syncsDirectories: bool)
      requires disk.Valid()
      ensures Valid() && this.disk == disk && open == {} && trace == [disk] && this.syncsDirectories == syncsDirectories && this.modes == modes
      ensures calls == [] && faults == failedRemovals == 0 && Recorded()
    {
      this.disk, this.modes, this.syncsDirectories, open := disk, modes, syncsDirectories, {};
      trace, calls, faults, failedRemovals := [disk], [], 0, 0;
    }

    /** `tempfile.mkstemp(prefix=f".{name}.")`: a new empty file under a new name, opened; or nothing. */
    method MakeTemp(name: string) returns (tmp: Option<string>, fd: Inode)
      requires Valid()
      modifies this`disk, this`open, this`modes, this`trace, this`faults
      ensures Valid() && faults == old(faults) + Fault(tmp.Some?)
      ensures modes == if tmp.Some? then old(modes)[fd := OWNER_ONLY] else old(modes)
      ensures tmp.None? ==> disk == old(disk) && open == old(open) && trace == old(trace)
      ensures tmp.Some? ==> tmp.value !in old(disk.entries) && tmp.value != name
      ensures tmp.Some? ==> fd == old(disk.next) && open == old(open) + {fd} && trace == old(trace) + [disk]
      ensures tmp.Some? ==>
        disk == old(disk).Relink(tmp.value, Some(fd)).(data := old(disk.data)[fd := []], next := fd + 1)
    {
      var suffix: string := *;
      var candidate := "." + name + "." + suffix;
      var fails: bool := *;
      fd := disk.next;
      if fails || candidate in disk.entries {
        faults := faults + Fault(false);
        return None, fd;
      }
      assert |candidate| > |name|;
      disk := disk.Relink(candidate, Some(fd)).(data := disk.data[fd := []], next := fd + 1);
      open, modes := open + {fd}, modes[fd := OWNER_ONLY];
      trace := trace + [disk];
      return Some(candidate), fd;
    }

    ghost function Fault(ok: bool): nat {
      if ok then 0 else 1
    }

    /** `os.chmod` of the temporary file. */
    method ChangeMode(fd: Inode, mode: nat) returns (ok: bool)
      modifies this`modes, this`faults
      ensures faults == old(faults) + Fault(ok)
      ensures modes == if ok then old(modes)[fd := mode] else old(modes)
    {
      ok := *;
      if ok { modes := modes[fd := mode]; }
      faults := faults + Fault(ok);
    }

    /** A call whose success leaves no mark: `mkdir` where the directory exists, `fdopen`. */
    method Attempt() returns (ok: bool)
      modifies this`faults
      ensures faults == old(faults) + Fault(ok)
    {
      ok := *;
      faults := faults + Fault(ok);
    }

    /** `handle.write` and `handle.flush`: on failure any part may have been written. */
    method Write(fd: Inode, content: Bytes) returns (ok: bool)
      requires Valid() && fd in open && fd in disk.data
      modifies this`disk, this`trace, this`faults
      ensures Valid() && faults == old(faults) + Fault(ok)
      ensures fd in disk.data && (ok ==> disk.data[fd] == content)
      ensures disk == old(disk).(data := old(disk.data)[fd := disk.data[fd]], synced := old(disk.synced) - {fd})
      ensures trace == old(trace) + [disk]
    {
      ok := *;
      faults := faults + Fault(ok);
      var part: Bytes := *;
      if ok { part := content; }
      disk := disk.(data := disk.data[fd := part], synced := disk.synced - {fd});
      trace := trace + [disk];
    }

    /** `os.fsync` of a file. */
    method SyncFile(fd: Inode) returns (ok: bool)
      requires Valid() && fd in open && fd in disk.data
      modifies this`disk, this`trace, this`faults
      ensures Valid() && faults == old(faults) + Fault(ok)
      ensures !ok ==> disk == old(disk) && trace == old(trace)
      ensures ok ==> disk == old(disk).(synced := old(disk.synced)[fd := old(disk.data)[fd]]) && trace == old(trace) + [disk]
    {
      ok := *;
      faults := faults + Fault(ok);
      if ok {
        disk := disk.(synced := disk.synced[fd := disk.data[fd]]);
        trace := trace + [disk];
      }
    }

    /** `os.close`; it may report an error, but the descriptor is gone. */
    method Close(fd: Inode) returns (ok: bool)
      requires fd in open
      modifies this`open, this`faults
      ensures open == old(open) - {fd} && faults == old(faults) + Fault(ok)
    {
      ok := *;
      faults := faults + Fault(ok);
      open := open - {fd};
    }

    /** `os.replace`: one atomic directory operation, or none. */
    method Replace(src: string, dst: string) returns (ok: bool)
      requires Valid() && src in disk.entries && src != dst
      modifies this`disk, this`trace, this`faults
      ensures Valid() && faults == old(faults) + Fault(ok)
      ensures !ok ==> disk == old(disk) && trace == old(trace)
      ensures ok ==> disk == old(disk).Relink(src, None).Relink(dst, old(disk).Current(src)) && trace == old(trace) + [disk]
    {
      ok := *;
      faults := faults + Fault(ok);
      if ok {
        disk := disk.Relink(src, None).Relink(dst, disk.Current(src));
        trace := trace + [disk];
      }
    }

    /** `unlink(missing_ok=True)` */
    method Unlink(name: string) returns (ok: bool)
      requires Valid()
      modifies this`disk, this`trace, this`failedRemovals
      ensures Valid() && failedRemovals == old(failedRemovals) + Fault(ok)
      ensures !ok || name !in old(disk.entries) ==> disk == old(disk) && trace == old(trace)
      ensures ok && name in old(disk.entries) ==> disk == old(disk).Relink(name, None) && trace == old(trace) + [disk]
    {
      ok := *;
      failedRemovals := failedRemovals + Fault(ok);
      if ok && name in disk.entries {
        disk := disk.Relink(name, None);
        trace := trace + [disk];
      }
    }

    /** `_fsync_directory`: unsupported is not an error; any other failure to open, synchronise or close is raised. */
    method SyncDirectory() returns (result: SyncResult)
      requires Valid()
      modifies this`disk, this`trace, this`faults
      ensures Valid() && faults == old(faults) + Fault(result != Failed)
      ensures syncsDirectories ==> result != Unsupported
      ensures (disk == old(disk) && trace == old(trace)) || (disk == old(disk).(earlier := map[]) && trace == old(trace) + [disk])
      ensures result == Synced ==> disk == old(disk).(earlier := map[])
    {
      var works: bool := *;
      var closes: bool := *;
      result := Failed;
      if !syncsDirectories {
        if closes { result := Unsupported; }
      } else if works {
        disk := disk.(earlier := map[]);
        trace := trace + [disk];
        if closes { result := Synced; }
      }
      faults := faults + Fault(result != Failed);
    }

    // ---- _atomic_write ------------------------------------------------------------------------

    /** Every disk state from some point of the trace on keeps the promise of one call. */
    ghost predicate EveryStateSafe(start: Disk, from: nat, name: string, content: Bytes)
      reads this
    {
      from <= |trace| && forall k | from <= k < |trace| :: OldOrNew(start, trace[k], name, content)
    }

    /** `mkstemp`, seen from the call that makes it. */
    method Stage(name: string, content: Bytes) returns (tmp: Option<string>, fd: Inode)
      requires Valid()
      modifies this`disk, this`open, this`modes, this`trace, this`faults
      ensures Valid() && old(trace) <= trace && EveryStateSafe(old(disk), |old(trace)|, name, content)
      ensures tmp.None? ==> disk == old(disk) && open == old(open)
      ensures tmp.Some? ==> Staged(old(disk), disk, tmp.value, fd, name) && OldOrNew(old(disk), disk, name, content)
      ensures tmp.Some? ==> open == old(open) + {fd} && fd !in old(open)
      ensures faults == old(faults) + Fault(tmp.Some?)
      ensures modes == if tmp.Some? then old(modes)[fd := OWNER_ONLY] else old(modes)
    {
      ghost var start := disk;
      tmp, fd := MakeTemp(name);
      if tmp.Some? {
        start.RelinkFacts(tmp.value, Some(fd));
        assert disk.MayLink(name) == start.MayLink(name);
        assert Some(fd) !in start.MayLink(name);
        StartIsOld(start, name, content);
        StaysOldOrNew(start, start, disk, fd, name, content);
      }
    }

    /** The body of the `try` up to the closed handle: the temporary file holds the content and is synchronised. */
    method Fill(ghost start: Disk, ghost from: nat, name: string, tmp: string, fd: Inode, content: Bytes, mode: Option<nat>)
      returns (ok: bool, descriptorOwned: bool)
      requires Valid() && fd in open && Staged(start, disk, tmp, fd, name)
      requires OldOrNew(start, disk, name, content) && EveryStateSafe(start, from, name, content)
      requires fd in modes && modes[fd] == OWNER_ONLY
      modifies this`disk, this`open, this`modes, this`trace, this`faults
      ensures Valid() && Staged(start, disk, tmp, fd, name)
      ensures old(trace) <= trace && OldOrNew(start, disk, name, content) && EveryStateSafe(start, from, name, content)
      ensures open == if descriptorOwned then old(open) else old(open) - {fd}
      ensures ok ==> !descriptorOwned && fd in disk.synced && disk.synced[fd] == content
      ensures old(faults) <= faults && (ok <==> faults == old(faults))
      ensures fd in modes && modes == old(modes)[fd := modes[fd]] && (ok ==> modes[fd] == Chosen(mode))
    {
      descriptorOwned := true;
      if mode.Some? {
        var chmodded := ChangeMode(fd, mode.value);
        if !chmodded { return false, true; }
      }
      var wrapped := Attempt();
      if !wrapped { return false, true; }
      descriptorOwned := false;
      ok := WriteOut(start, from, name, tmp, fd, content, mode);
    }

    /** The `with handle` block: whatever fails, the handle is closed. */
    method WriteOut(ghost start: Disk, ghost from: nat, name: string, ghost tmp: string, fd: Inode, content: Bytes, ghost mode: Option<nat>)
      returns (ok: bool)
      requires Valid() && fd in open && Staged(start, disk, tmp, fd, name)
      requires OldOrNew(start, disk, name, content) && EveryStateSafe(start, from, name, content)
      requires fd in modes && modes[fd] == Chosen(mode)
      modifies this`disk, this`open, this`trace, this`faults
      ensures Valid() && Staged(start, disk, tmp, fd, name)
      ensures old(trace) <= trace && OldOrNew(start, disk, name, content) && EveryStateSafe(start, from, name, content)
      ensures open == old(open) - {fd}
      ensures ok ==> fd in disk.synced && disk.synced[fd] == content
      ensures old(faults) <= faults && (ok <==> faults == old(faults))
    {
      ghost var before := disk;
      ok := Write(fd, content);
      FillingKeepsStaged(start, before, disk, tmp, fd, name, content);
      if ok {
        before := disk;
        ok := SyncFile(fd);
        FillingKeepsStaged(start, before, disk, tmp, fd, name, content);
      }
      var closed := Close(fd);
      ok := ok && closed;
    }

    /** `os.replace` and `_fsync_directory`, for a complete temporary file. */
    method Promote(ghost start: Disk, ghost from: nat, name: string, tmp: string, fd: Inode, content: Bytes)
      returns (replaced: bool, result: SyncResult)
      requires Valid() && Staged(start, disk, tmp, fd, name)
      requires OldOrNew(start, disk, name, content) && EveryStateSafe(start, from, name, content)
      requires fd in disk.synced && disk.synced[fd] == content
      modifies this`disk, this`trace, this`faults
      ensures Valid() && old(trace) <= trace && OldOrNew(start, disk, name, content) && EveryStateSafe(start, from, name, content)
      ensures !replaced ==> disk == old(disk) && result == Failed
      ensures replaced ==> disk.entries == start.entries[name := fd] && disk.data == old(disk.data)
      ensures syncsDirectories ==> result != Unsupported
      ensures replaced && result == Synced ==> OnlyNew(disk, name, content)
      ensures old(faults) <= faults && (replaced && result != Failed <==> faults == old(faults))
    {
      ghost var before := disk;
      result := Failed;
      replaced := Replace(tmp, name);
      if replaced {
        RenamingIsSafe(start, before, disk, tmp, fd, name, content);
        RenameEntries(start, before, disk, tmp, fd, name);
        before := disk;
        result := SyncDirectory();
        SyncingIsFinal(start, before, disk, fd, name, content);
      }
    }

    /** The `try` block: fill the temporary file and put it in the target's place. */
    method Commit(ghost start: Disk, ghost from: nat, name: string, tmp: string, fd: Inode, content: Bytes, mode: Option<nat>)
      returns (result: SyncResult, descriptorOwned: bool)
      requires start.Valid() && Valid() && fd in open && Staged(start, disk, tmp, fd, name)
      requires OldOrNew(start, disk, name, content) && EveryStateSafe(start, from, name, content)
      requires fd in modes && modes[fd] == OWNER_ONLY
      modifies this`disk, this`open, this`modes, this`trace, this`faults
      ensures Valid() && old(trace) <= trace && OldOrNew(start, disk, name, content) && EveryStateSafe(start, from, name, content)
      ensures open == if descriptorOwned then old(open) else old(open) - {fd}
      ensures old(faults) <= faults && (result != Failed <==> faults == old(faults))
      ensures Staged(start, disk, tmp, fd, name) || InPlace(start, disk, tmp, fd, name, content)
      ensures result != Failed ==> InPlace(start, disk, tmp, fd, name, content) && !descriptorOwned
      ensures fd in modes && modes == old(modes)[fd := modes[fd]] && (result != Failed ==> modes[fd] == Chosen(mode))
      ensures syncsDirectories ==> result != Unsupported
      ensures result == Synced ==> OnlyNew(disk, name, content)
    {
      result := Failed;
      var ok;
      ok, descriptorOwned := Fill(start, from, name, tmp, fd, content, mode);
      if ok {
        var replaced;
        replaced, result := Promote(start, from, name, tmp, fd, content);
        if replaced { ShowsNew(start, disk, fd, name, content); }
      }
    }

    /** The `except` branch: close the descriptor if it is still owned here, then remove the temporary file. */
    method CleanUp(ghost start: Disk, ghost from: nat, ghost name: string, tmp: string, fd: Inode, ghost content: Bytes, descriptorOwned: bool)
      returns (clean: bool)
      requires start.Valid() && Valid() && (descriptorOwned ==> fd in open)
      requires Staged(start, disk, tmp, fd, name) || InPlace(start, disk, tmp, fd, name, content)
      requires OldOrNew(start, disk, name, content) && EveryStateSafe(start, from, name, content)
      modifies this`disk, this`open, this`trace, this`faults, this`failedRemovals
      ensures Valid() && old(trace) <= trace && OldOrNew(start, disk, name, content) && EveryStateSafe(start, from, name, content)
      ensures open == if descriptorOwned then old(open) - {fd} else old(open)
      ensures old(faults) <= faults && failedRemovals == old(failedRemovals) + Fault(clean)
      ensures tmp !in old(disk.entries) ==> disk == old(disk)
      ensures tmp in old(disk.entries) ==> Shows(start, disk, name, start.Read(name)) && (clean ==> disk.entries == start.entries)
    {
      ghost var before := disk;
      if descriptorOwned {
        var ignored := Close(fd);
      }
      clean := Unlink(tmp);
      if tmp in before.entries {
        if clean {
          RemovingIsSafe(start, before, disk, tmp, fd, name, content);
          RemovingEntries(start, before, disk, tmp, fd);
        }
        ShowsOld(start, disk, tmp, fd, name);
      }
    }

    /** `_atomic_write` from the temporary file on: the `try` block, or the `except` branch after it. */
    method CommitOrCleanUp(ghost start: Disk, ghost from: nat, name: string, tmp: string, fd: Inode, content: Bytes, mode: Option<nat>)
      returns (outcome: Outcome)
      requires start.Valid() && Valid() && fd in open && Staged(start, disk, tmp, fd, name)
      requires OldOrNew(start, disk, name, content) && EveryStateSafe(start, from, name, content)
      requires fd in modes && modes[fd] == OWNER_ONLY
      modifies this`disk, this`open, this`modes, this`trace, this`faults, this`failedRemovals
      ensures Valid() && old(trace) <= trace && OldOrNew(start, disk, name, content) && EveryStateSafe(start, from, name, content)
      ensures open == old(open) - {fd}
      ensures old(faults) <= faults && (outcome.Returned? <==> faults == old(faults))
      ensures failedRemovals == old(failedRemovals) + Fault(outcome.Returned? || outcome.clean)
      ensures fd in modes && modes == old(modes)[fd := modes[fd]]
      ensures outcome.Returned? ==> InPlace(start, disk, tmp, fd, name, content) && modes[fd] == Chosen(mode)
      ensures outcome.Returned? && syncsDirectories ==> outcome.durable
      ensures outcome.Returned? && outcome.durable ==> OnlyNew(disk, name, content)
      ensures outcome.Raised? ==> Shows(start, disk, name, start.Read(name)) || Shows(start, disk, name, Some(content))
      ensures outcome.Raised? && outcome.clean ==> disk.entries.Keys == start.entries.Keys || disk.entries.Keys == start.entries.Keys + {name}
    {
      var result, descriptorOwned := Commit(start, from, name, tmp, fd, content, mode);
      if result != Failed { return Returned(result == Synced); }
      var clean := CleanUp(start, from, name, tmp, fd, content, descriptorOwned);
      return Raised(clean);
    }

    /** `_atomic_write` */
    method AtomicWrite(name: string, content: Bytes, mode: Option<nat>) returns (outcome: Outcome)
      requires Valid()
      modifies this`disk, this`open, this`modes, this`trace, this`faults, this`failedRemovals
      ensures Valid()
      // At every crash point: the old content, as far as it was on disk, or all of the new.
      ensures old(trace) <= trace && EveryStateSafe(old(disk), |old(trace)|, name, content)
      ensures OldOrNew(old(disk), disk, name, content)
      // It returns exactly if no operation failed, and reports exactly whether the temporary file could be removed.
      ensures old(faults) <= faults && (outcome.Returned? <==> faults == old(faults))
      ensures failedRemovals == old(failedRemovals) + Fault(outcome.Returned? || outcome.clean)
      // No descriptor is left open, whatever happens.
      ensures open == old(open)
      // A normal return shows the new content, for good if the directory was synchronised.
      ensures outcome.Returned? ==> Shows(old(disk), disk, name, Some(content)) && disk.entries.Keys == old(disk.entries.Keys) + {name}
      ensures outcome.Returned? && syncsDirectories ==> outcome.durable
      // The new file has the asked-for mode, and no other file's mode has changed.
      ensures outcome.Returned? ==> disk.entries[name] in modes && modes[disk.entries[name]] == (if mode.Some? then mode.value else 0x180)
      ensures forall i | i < old(disk.next) :: (i in modes <==> i in old(modes)) && (i in modes ==> modes[i] == old(modes)[i])
      ensures outcome.Returned? && outcome.durable ==> OnlyNew(disk, name, content)
      // A failure shows the old content or the new, and leaves no temporary file if the unlink succeeded.
      ensures outcome.Raised? ==> Shows(old(disk), disk, name, old(disk.Read(name))) || Shows(old(disk), disk, name, Some(content))
      ensures outcome.Raised? && outcome.clean ==> disk.entries.Keys == old(disk.entries.Keys) || disk.entries.Keys == old(disk.entries.Keys) + {name}
    {
      ghost var start, from := disk, |trace|;
      StartIsOld(start, name, content);
      var made := Attempt();
      if !made { return Raised(true); }
      var temp, fd := Stage(name, content);
      if temp == None { return Raised(true); }
      outcome := CommitOrCleanUp(start, from, name, temp.value, fd, content, mode);
    }

    /**
     * `atomic_write_bytes` and, with the encoded text, `atomic_write_text`: one more call, and at every disk state in
     * the middle of it the calls so far with this one cut short.
     */
    method AtomicWriteBytes(name: string, content: Bytes, mode: Option<nat>) returns (outcome: Outcome)
      requires Recorded()
      modifies this`disk, this`open, this`modes, this`trace, this`faults, this`failedRemovals, this`calls
      ensures Recorded() && open == old(open) && old(trace) <= trace
      ensures old(faults) <= faults && (outcome.Returned? <==> faults == old(faults))
      ensures failedRemovals == old(failedRemovals) + Fault(outcome.Returned? || outcome.clean)
      ensures calls == old(calls) + [Call(old(disk), name, content, disk, outcome == Returned(true))]
      ensures forall k | old(|trace|) <= k < |trace| :: Consecutive(old(calls) + [Call(old(disk), name, content, trace[k], false)])
      ensures outcome.Returned? ==> Shows(old(disk), disk, name, Some(content)) && disk.entries.Keys == old(disk.entries.Keys) + {name}
      ensures outcome.Returned? && syncsDirectories ==> outcome.durable
      ensures outcome.Returned? ==> disk.entries[name] in modes && modes[disk.entries[name]] == (if mode.Some? then mode.value else 0x180)
      ensures outcome.Raised? ==> Shows(old(disk), disk, name, old(disk.Read(name))) || Shows(old(disk), disk, name, Some(content))
      ensures outcome.Raised? && outcome.clean ==> disk.entries.Keys == old(disk.entries.Keys) || disk.entries.Keys == old(disk.entries.Keys) + {name}
    {
      ghost var start := disk;
      outcome := AtomicWrite(name, content, mode);
      CallCutShort(calls, start, name, content, trace, old(|trace|));
      CallFinished(calls, start, name, content, disk, outcome == Returned(true));
      calls := calls + [Call(start, name, content, disk, outcome == Returned(true))];
    }
  }
}
