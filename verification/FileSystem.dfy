/** A file system with a page cache: names point to inodes, an inode's bytes and the directory reach
    the device separately, and a crash keeps only what reached it. */
module FileSystem {
  import opened Wrappers

  /** A document as one JSON value; its text is not modelled. */
  type Doc(==, !new)

  /** What a file holds: the text of one whole document, or anything else. */
  datatype Content = Full(doc: Doc) | Torn

  datatype Name = Target | Scratch(id: nat)

  type Inode = nat

  /** `durableDir` is the directory as the device has it; the device has the bytes of the `synced` inodes
      as they are in `data`, and anything at all for the others. */
  datatype Disk = Disk(dir: map<Name, Inode>, durableDir: map<Name, Inode>, data: map<Inode, Content>,
                       synced: set<Inode>, next: Inode)

  function ContentAt(d: Disk, dir: map<Name, Inode>): Option<Content> {
    if Target in dir && dir[Target] in d.data then Some(d.data[dir[Target]]) else None
  }

  /** What a reader of the target finds now. */
  function Visible(d: Disk): Option<Content> { ContentAt(d, d.dir) }

  /** What a reader of the target would find after a crash now. */
  function Durable(d: Disk): Option<Content> { ContentAt(d, d.durableDir) }

  // ---------------------------------------------------------------- system calls

  function OpenInode(d: Disk, n: Name): Inode {
    if n in d.dir then d.dir[n] else d.next
  }

  /** Open for writing: creates the file, or empties the one that is there. */
  function Open(d: Disk, n: Name): Disk {
    var i := OpenInode(d, n);
    d.(dir := d.dir[n := i], data := d.data[i := Torn], synced := d.synced - {i},
       next := if n in d.dir then d.next else d.next + 1)
  }

  function Fill(d: Disk, i: Inode, doc: Doc): Disk {
    d.(data := d.data[i := Full(doc)], synced := d.synced - {i})
  }

  function Fsync(d: Disk, i: Inode): Disk {
    if i in d.data then d.(synced := d.synced + {i}) else d
  }

  function Unlink(d: Disk, n: Name): Disk {
    d.(dir := d.dir - {n})
  }

  /** Rename over the target. */
  function Replace(d: Disk, n: Name): Disk
    requires n in d.dir
  {
    d.(dir := (d.dir - {n})[Target := d.dir[n]])
  }

  function SyncDir(d: Disk): Disk {
    d.(durableDir := d.dir)
  }

  /** Power loss and recovery; `garbage` is what the device happened to have of unsynced inodes. */
  function Crash(d: Disk, garbage: map<Inode, Content>): Disk {
    d.(dir := d.durableDir,
       data := map i | i in d.data :: if i in d.synced then d.data[i] else if i in garbage then garbage[i] else Torn,
       synced := d.data.Keys)
  }

  // ---------------------------------------------------------------- soundness of the disk

  predicate Distinct(m: map<Name, Inode>) {
    forall a, b :: a in m && b in m && a != b ==> m[a] != m[b]
  }

  predicate InRange(d: Disk) {
    && (forall n :: n in d.dir ==> d.dir[n] in d.data)
    && (forall n :: n in d.durableDir ==> d.durableDir[n] in d.data)
    && (forall i :: i in d.data ==> i < d.next)
    && d.synced <= d.data.Keys
  }

  /** No scratch name points at the inode a crash would recover. */
  predicate Apart(d: Disk) {
    Target in d.durableDir ==> forall n :: n in d.dir && n != Target ==> d.dir[n] != d.durableDir[Target]
  }

  /** Whatever a reader finds, now or after a crash, the device has in full. */
  predicate Settled(d: Disk) {
    && (Target in d.dir ==> d.dir[Target] in d.synced)
    && (Target in d.durableDir ==> d.durableDir[Target] in d.synced)
  }

  predicate Sound(d: Disk) {
    InRange(d) && Distinct(d.dir) && Distinct(d.durableDir) && Apart(d) && Settled(d)
  }

  /** Nothing a reader can find, now or after a crash, differs between the two disks. */
  predicate SameForReaders(a: Disk, b: Disk) {
    Visible(a) == Visible(b) && Durable(a) == Durable(b)
  }

  lemma OpenIsPrivate(d: Disk, n: Name)
    requires Sound(d) && n != Target
    ensures Sound(Open(d, n)) && SameForReaders(d, Open(d, n))
    ensures n in Open(d, n).dir && Open(d, n).dir[n] == OpenInode(d, n)
    ensures forall m :: m != n && m in d.dir ==> m in Open(d, n).dir && Open(d, n).dir[m] == d.dir[m] != OpenInode(d, n)
  {
  }

  lemma FillIsPrivate(d: Disk, n: Name, doc: Doc)
    requires Sound(d) && n != Target && n in d.dir
    ensures Sound(Fill(d, d.dir[n], doc)) && SameForReaders(d, Fill(d, d.dir[n], doc))
  {
  }

  lemma FsyncIsPrivate(d: Disk, i: Inode)
    requires Sound(d)
    ensures Sound(Fsync(d, i)) && SameForReaders(d, Fsync(d, i))
  {
  }

  lemma UnlinkIsPrivate(d: Disk, n: Name)
    requires Sound(d) && n != Target
    ensures Sound(Unlink(d, n)) && SameForReaders(d, Unlink(d, n))
  {
  }

  lemma ReplacePublishes(d: Disk, n: Name)
    requires Sound(d) && n != Target && n in d.dir && d.dir[n] in d.synced
    ensures Sound(Replace(d, n))
    ensures Visible(Replace(d, n)) == Some(d.data[d.dir[n]]) && Durable(Replace(d, n)) == Durable(d)
  {
  }

  lemma SyncDirSettles(d: Disk)
    requires Sound(d)
    ensures Sound(SyncDir(d))
    ensures Visible(SyncDir(d)) == Visible(d) && Durable(SyncDir(d)) == Visible(d)
  {
  }

  lemma CrashRecovers(d: Disk, garbage: map<Inode, Content>)
    requires Sound(d)
    ensures Sound(Crash(d, garbage))
    ensures Visible(Crash(d, garbage)) == Durable(d) && Durable(Crash(d, garbage)) == Durable(d)
  {
  }

  /** A crash leaves anything at all of a file that was not synced. */
  lemma UnsyncedIsAnything(d: Disk, i: Inode, c: Content)
    requires i in d.data && i !in d.synced
    ensures Crash(d, map[i := c]).data[i] == c
  {
  }

  /** So the scratch file must be synced before the rename: otherwise a crash after it can publish anything. */
  lemma RenameBeforeSyncTears(d: Disk, n: Name)
    requires n != Target && n in d.dir && d.dir[n] in d.data && d.dir[n] !in d.synced
    ensures Visible(Crash(SyncDir(Replace(d, n)), map[d.dir[n] := Torn])) == Some(Torn)
  {
  }
}
