/** Atomic publication of new files by any number of concurrent publishers. */
module Publication {
  // A step system: every file-system call is one step, steps of different publishers
  // interleave freely, any call may fail, and a crashed publisher is one that takes no
  // further step. Nothing outside deletes or rewrites files, but other programs may
  // create new ones at any time.

  const MAX_TEMP_CREATE_ATTEMPTS: nat := 64

  /** A counter is a 64-bit word and wraps. */
  const COUNTER_VALUES: nat := 0x1_0000_0000_0000_0000

  type Ticket = n: nat | n < COUNTER_VALUES

  type Bytes = seq<nat>

  /** Temporary names carry the process id and a counter value; all other names are Plain. */
  datatype Name = TempName(pid: nat, number: Ticket) | Plain(id: nat)

  datatype Path = Path(dir: nat, name: Name)

  /** One call: the process that makes it, the counter it draws temporary names from, the
      destination, and the bytes. Calls of one process may share a counter or not. */
  datatype Job = Job(pid: nat, counter: nat, path: Path, bytes: Bytes)

  datatype Pc =
    | Start
    | Creating(attempts: nat)
    | Reserved(attempts: nat, number: Ticket)
    | Writing(temp: Path, inode: nat, written: nat)
    | Synced(temp: Path, inode: nat)
    | Failing(temp: Path, inode: nat)
    | Linked(temp: Path, inode: nat, ok: bool)
    | Done(ok: bool, leaked: bool)

  /** Who created an inode. */
  datatype Origin = Outside | By(publisher: nat)

  /** Directory entries, inode contents and creators, the name counters, program counters. */
  datatype State = State(fs: map<Path, nat>, data: map<nat, Bytes>, origin: map<nat, Origin>,
                         counters: map<nat, Ticket>, pcs: map<nat, Pc>)

  datatype World = World(jobs: map<nat, Job>, dirs: set<nat>)

  // ---------- the steps ----------

  ghost predicate Goes(s: State, s': State, i: nat, pc: Pc) {
    s' == s.(pcs := s.pcs[i := pc])
  }

  function TempPath(job: Job, number: Ticket): Path {
    Path(job.path.dir, TempName(job.pid, number))
  }

  function Counter(s: State, counter: nat): Ticket {
    if counter in s.counters then s.counters[counter] else 0
  }

  /** Destination checks. */
  ghost predicate Check(w: World, s: State, s': State, i: nat)
    requires i in s.pcs && i in w.jobs
  {
    && s.pcs[i] == Start
    && var path := w.jobs[i].path;
    if path.dir !in w.dirs || path in s.fs then Goes(s, s', i, Done(false, false)) else Goes(s, s', i, Creating(0))
  }

  /** fetch_add on the call's counter, or the bounded retries are used up. */
  ghost predicate Reserve(w: World, s: State, s': State, i: nat)
    requires i in s.pcs && i in w.jobs
  {
    && s.pcs[i].Creating?
    && var k := s.pcs[i].attempts;
    if k >= MAX_TEMP_CREATE_ATTEMPTS then Goes(s, s', i, Done(false, false))
    else
      var counter := w.jobs[i].counter;
      s' == s.(counters := s.counters[counter := (Counter(s, counter) + 1) % COUNTER_VALUES],
               pcs := s.pcs[i := Reserved(k, Counter(s, counter))])
  }

  /** create_new on the reserved name: a fresh file, a retry when the name exists, or an error. */
  ghost predicate Create(w: World, s: State, s': State, i: nat, inode: nat)
    requires i in s.pcs && i in w.jobs
  {
    && s.pcs[i].Reserved?
    && var temp := TempPath(w.jobs[i], s.pcs[i].number);
    || Goes(s, s', i, Done(false, false))
    || (temp in s.fs && Goes(s, s', i, Creating(s.pcs[i].attempts + 1)))
    || (temp !in s.fs && inode !in s.origin
        && s' == s.(fs := s.fs[temp := inode], data := s.data[inode := []], origin := s.origin[inode := By(i)],
                    pcs := s.pcs[i := Writing(temp, inode, 0)]))
  }

  /** write_all in any number of pieces, then flush and sync; any of them may fail. */
  ghost predicate Write(w: World, s: State, s': State, i: nat, written: nat)
    requires i in s.pcs && i in w.jobs
  {
    && s.pcs[i].Writing?
    && var Writing(temp, inode, n) := s.pcs[i];
    var bytes := w.jobs[i].bytes;
    || Goes(s, s', i, Failing(temp, inode))
    || (n < written <= |bytes|
        && s' == s.(data := s.data[inode := bytes[..written]], pcs := s.pcs[i := Writing(temp, inode, written)]))
    || (n == |bytes| && Goes(s, s', i, Synced(temp, inode)))
  }

  /** hard_link refuses an existing destination; it may also fail for another reason. */
  ghost predicate Link(w: World, s: State, s': State, i: nat)
    requires i in s.pcs && i in w.jobs
  {
    && s.pcs[i].Synced?
    && var Synced(temp, inode) := s.pcs[i];
    var path := w.jobs[i].path;
    || Goes(s, s', i, Linked(temp, inode, false))
    || (path !in s.fs && temp in s.fs
        && s' == s.(fs := s.fs[path := s.fs[temp]], pcs := s.pcs[i := Linked(temp, inode, true)]))
  }

  /** remove_file on the temporary name, whose own failure is ignored. */
  ghost predicate Remove(s: State, s': State, i: nat)
    requires i in s.pcs
  {
    && (s.pcs[i].Failing? || s.pcs[i].Linked?)
    && var ok := s.pcs[i].Linked? && s.pcs[i].ok;
    || Goes(s, s', i, Done(ok, true))
    || s' == s.(fs := s.fs - {s.pcs[i].temp}, pcs := s.pcs[i := Done(ok, false)])
  }

  ghost predicate Step(w: World, s: State, s': State, i: nat) {
    && i in w.jobs && i in s.pcs
    && (|| Check(w, s, s', i) || Reserve(w, s, s', i)
        || (exists inode :: Create(w, s, s', i, inode))
        || (exists written :: Write(w, s, s', i, written))
        || Link(w, s, s', i) || Remove(s, s', i))
  }

  /** Another program creates a file with any content. */
  ghost predicate OutsideCreates(s: State, s': State, path: Path, inode: nat, bytes: Bytes) {
    && path !in s.fs && inode !in s.origin
    && s' == s.(fs := s.fs[path := inode], data := s.data[inode := bytes], origin := s.origin[inode := Outside])
  }

  ghost predicate Next(w: World, s: State, s': State) {
    || (exists i :: Step(w, s, s', i))
    || (exists path, inode, bytes :: OutsideCreates(s, s', path, inode, bytes))
  }

  /** Any files may exist beforehand, leftovers under temporary names included,
      and the counters may stand anywhere. */
  ghost predicate Init(w: World, s: State) {
    && s.pcs.Keys == w.jobs.Keys
    && (forall i | i in s.pcs :: s.pcs[i] == Start)
    && (forall p | p in s.fs :: s.fs[p] in s.origin && s.origin[s.fs[p]] == Outside)
    && s.data.Keys == s.origin.Keys
    && (forall n | n in s.origin :: s.origin[n] == Outside)
  }

  ghost predicate IsRun(w: World, run: seq<State>) {
    && |run| > 0 && Init(w, run[0])
    && forall k | 0 < k < |run| :: Next(w, run[k - 1], run[k])
  }

  // ---------- what is promised ----------

  ghost predicate Owns(pc: Pc) { pc.Writing? || pc.Synced? || pc.Failing? || pc.Linked? }

  ghost predicate Succeeded(pc: Pc) { (pc.Linked? || pc.Done?) && pc.ok }

  /** The file at p is some outsider's, or the whole bytes of a publisher to p that succeeded. */
  ghost predicate Complete(w: World, s: State, p: Path)
    requires p in s.fs
  {
    && s.fs[p] in s.data && s.fs[p] in s.origin
    && match s.origin[s.fs[p]]
       case Outside => true
       case By(i) =>
         i in w.jobs && i in s.pcs && w.jobs[i].path == p && Succeeded(s.pcs[i])
         && s.data[s.fs[p]] == w.jobs[i].bytes
  }

  /** If p is present in a then it is complete there and in b still the same file with the same bytes. */
  ghost predicate Stands(w: World, a: State, b: State, p: Path) {
    p in a.fs ==>
      && Complete(w, a, p) && p in b.fs && b.fs[p] == a.fs[p]
      && a.fs[p] in b.data && b.data[a.fs[p]] == a.data[a.fs[p]]
  }

  ghost predicate RunStands(w: World, run: seq<State>) {
    forall k, m, i | 0 <= k <= m < |run| && i in w.jobs :: Stands(w, run[k], run[m], w.jobs[i].path)
  }

  /** Two publishers never both succeed for one path, and never own the same temporary file. */
  ghost predicate Exclusive(w: World, s: State) {
    forall i, j | i in w.jobs && j in w.jobs && i in s.pcs && j in s.pcs && i != j ::
      && (w.jobs[i].path == w.jobs[j].path ==> !(Succeeded(s.pcs[i]) && Succeeded(s.pcs[j])))
      && (Owns(s.pcs[i]) && Owns(s.pcs[j]) ==> s.pcs[i].temp != s.pcs[j].temp && s.pcs[i].inode != s.pcs[j].inode)
  }

  /** A returned call whose removal worked has no file left except a published destination. */
  ghost predicate NoResidue(w: World, s: State) {
    forall p, i | p in s.fs && s.fs[p] in s.origin && s.origin[s.fs[p]] == By(i) && i in s.pcs && i in w.jobs
        && s.pcs[i].Done? && !s.pcs[i].leaked ::
      s.pcs[i].ok && p == w.jobs[i].path
  }

  /** p could be a temporary file of this call. */
  ghost predicate InSpace(w: World, job: Job, p: Path) {
    job.path.dir in w.dirs && p.dir == job.path.dir && p.name.TempName? && p.name.pid == job.pid
  }

  /** No destination lies where a publisher makes its temporary files. */
  ghost predicate DestinationsApart(w: World) {
    forall i, j | i in w.jobs && j in w.jobs :: !InSpace(w, w.jobs[j], w.jobs[i].path)
  }

  // ---------- the invariant ----------

  /** An owned temporary file is its owner's: the name still leads to the inode it created. */
  ghost predicate TempsOwned(w: World, s: State) {
    forall i | i in s.pcs && i in w.jobs && Owns(s.pcs[i]) ::
      && s.pcs[i].temp in s.fs && s.fs[s.pcs[i].temp] == s.pcs[i].inode
      && s.pcs[i].inode in s.origin && s.origin[s.pcs[i].inode] == By(i)
      && InSpace(w, w.jobs[i], s.pcs[i].temp)
  }

  /** What has been written so far, and everything once synced. */
  ghost predicate ContentsRight(w: World, s: State) {
    forall i | i in s.pcs && i in w.jobs ::
      && (s.pcs[i].Writing? ==>
            s.pcs[i].written <= |w.jobs[i].bytes| && s.pcs[i].inode in s.data
            && s.data[s.pcs[i].inode] == w.jobs[i].bytes[..s.pcs[i].written])
      && (s.pcs[i].Synced? || s.pcs[i].Linked? ==>
            s.pcs[i].inode in s.data
            && s.data[s.pcs[i].inode] == w.jobs[i].bytes)
  }

  /** A file some publisher created stands complete at its destination, or under
      a temporary name that it still owns or leaked. */
  ghost predicate Explained(w: World, s: State, p: Path, i: nat)
    requires p in s.fs
  {
    && i in s.pcs && i in w.jobs
    && if p == w.jobs[i].path then Succeeded(s.pcs[i]) && s.fs[p] in s.data && s.data[s.fs[p]] == w.jobs[i].bytes
       else InSpace(w, w.jobs[i], p)
            && ((Owns(s.pcs[i]) && s.pcs[i].temp == p) || (s.pcs[i].Done? && s.pcs[i].leaked))
  }

  ghost predicate FilesExplained(w: World, s: State) {
    forall p | p in s.fs && s.fs[p] in s.origin && s.origin[s.fs[p]].By? ::
      Explained(w, s, p, s.origin[s.fs[p]].publisher)
  }

  /** A publisher that reported success stands published. */
  ghost predicate SuccessStands(w: World, s: State) {
    forall i | i in s.pcs && i in w.jobs && Succeeded(s.pcs[i]) ::
      w.jobs[i].path in s.fs && s.fs[w.jobs[i].path] in s.origin && s.origin[s.fs[w.jobs[i].path]] == By(i)
  }

  ghost predicate Bookkept(w: World, s: State) {
    && s.pcs.Keys == w.jobs.Keys && s.data.Keys == s.origin.Keys
    && (forall p | p in s.fs :: s.fs[p] in s.origin)
    && (forall i | i in s.pcs && i in w.jobs && s.pcs[i] != Start && s.pcs[i] != Done(false, false) ::
      w.jobs[i].path.dir in w.dirs)
    && (forall i | i in s.pcs && s.pcs[i].Creating? :: s.pcs[i].attempts <= MAX_TEMP_CREATE_ATTEMPTS)
    && (forall i | i in s.pcs && s.pcs[i].Reserved? :: s.pcs[i].attempts < MAX_TEMP_CREATE_ATTEMPTS)
  }

  ghost predicate Inv(w: World, s: State) {
    && Bookkept(w, s) && TempsOwned(w, s) && ContentsRight(w, s) && FilesExplained(w, s) && SuccessStands(w, s)
  }

  lemma InitInv(w: World, s: State)
    requires Init(w, s)
    ensures Inv(w, s)
  {}

  /** A step that touches only the caller's program counter, and perhaps a shared
      counter, and owns nothing before or after. */
  lemma GoesInv(w: World, s: State, s': State, i: nat, pc: Pc)
    requires Inv(w, s) && i in s.pcs && i in w.jobs
    requires s' == s.(counters := s'.counters, pcs := s.pcs[i := pc])
    requires !Owns(s.pcs[i]) && !Owns(pc) && !Succeeded(pc) && !s.pcs[i].Done?
    requires pc != Done(false, false) ==> pc != Start && w.jobs[i].path.dir in w.dirs
    requires pc.Creating? ==> pc.attempts <= MAX_TEMP_CREATE_ATTEMPTS
    requires pc.Reserved? ==> pc.attempts < MAX_TEMP_CREATE_ATTEMPTS
    ensures Inv(w, s')
  {
    assert TempsOwned(w, s');
    assert ContentsRight(w, s');
    assert SuccessStands(w, s');
  }

  /** A step from one owning counter to another that leaves the files alone. */
  lemma OwnerGoesInv(w: World, s: State, s': State, i: nat, pc: Pc)
    requires Inv(w, s) && i in s.pcs && i in w.jobs && Goes(s, s', i, pc)
    requires Owns(s.pcs[i]) && Owns(pc) && pc.temp == s.pcs[i].temp && pc.inode == s.pcs[i].inode
    requires !Succeeded(pc) && !Succeeded(s.pcs[i]) && !pc.Writing?
    requires pc.Synced? || pc.Linked? ==>
      s.pcs[i].Synced?
      || (s.pcs[i].Writing? && s.pcs[i].written == |w.jobs[i].bytes|)
    ensures Inv(w, s')
  {
    hide ContentsRight, TempsOwned, FilesExplained;
    OwnerKeepsContents(w, s, s', i, pc);
    OwnerKeepsFiles(w, s, s', i, pc);
    assert SuccessStands(w, s');
  }

  lemma OwnerKeepsFiles(w: World, s: State, s': State, i: nat, pc: Pc)
    requires TempsOwned(w, s) && FilesExplained(w, s) && i in s.pcs && i in w.jobs && Goes(s, s', i, pc)
    requires Owns(s.pcs[i]) && Owns(pc) && pc.temp == s.pcs[i].temp && pc.inode == s.pcs[i].inode
    requires !Succeeded(pc) && !Succeeded(s.pcs[i])
    ensures TempsOwned(w, s') && FilesExplained(w, s')
  {}

  lemma OwnerKeepsContents(w: World, s: State, s': State, i: nat, pc: Pc)
    requires ContentsRight(w, s) && i in s.pcs && i in w.jobs && Goes(s, s', i, pc)
    requires Owns(s.pcs[i]) && Owns(pc) && pc.temp == s.pcs[i].temp && pc.inode == s.pcs[i].inode && !pc.Writing?
    requires pc.Synced? || pc.Linked? ==>
      s.pcs[i].Synced? || (s.pcs[i].Writing? && s.pcs[i].written == |w.jobs[i].bytes|)
    ensures ContentsRight(w, s')
  {}

  lemma CheckInv(w: World, s: State, s': State, i: nat)
    requires Inv(w, s) && i in s.pcs && i in w.jobs && Check(w, s, s', i)
    ensures Inv(w, s')
  {
    GoesInv(w, s, s', i, s'.pcs[i]);
  }

  lemma ReserveInv(w: World, s: State, s': State, i: nat)
    requires Inv(w, s) && i in s.pcs && i in w.jobs && Reserve(w, s, s', i)
    ensures Inv(w, s')
  {
    GoesInv(w, s, s', i, s'.pcs[i]);
  }

  /** The successful create_new. */
  ghost predicate Fresh(w: World, s: State, s': State, i: nat, temp: Path, inode: nat) {
    && i in s.pcs && i in w.jobs && s.pcs[i].Reserved? && InSpace(w, w.jobs[i], temp)
    && temp != w.jobs[i].path && temp !in s.fs && inode !in s.origin
    && s' == s.(fs := s.fs[temp := inode], data := s.data[inode := []], origin := s.origin[inode := By(i)],
                pcs := s.pcs[i := Writing(temp, inode, 0)])
  }

  lemma FreshOwned(w: World, s: State, s': State, i: nat, temp: Path, inode: nat)
    requires TempsOwned(w, s) && Fresh(w, s, s', i, temp, inode)
    ensures TempsOwned(w, s')
  {}

  lemma FreshContents(w: World, s: State, s': State, i: nat, temp: Path, inode: nat)
    requires Bookkept(w, s) && ContentsRight(w, s) && Fresh(w, s, s', i, temp, inode)
    ensures ContentsRight(w, s') && Bookkept(w, s')
  {}

  lemma FreshExplained(w: World, s: State, s': State, i: nat, temp: Path, inode: nat)
    requires Bookkept(w, s) && FilesExplained(w, s) && Fresh(w, s, s', i, temp, inode)
    ensures FilesExplained(w, s')
  {
    forall p | p in s'.fs && s'.fs[p] in s'.origin && s'.origin[s'.fs[p]].By?
      ensures Explained(w, s', p, s'.origin[s'.fs[p]].publisher)
    {
      if p != temp {
        assert Explained(w, s, p, s.origin[s.fs[p]].publisher);
      }
    }
  }

  lemma FreshSuccess(w: World, s: State, s': State, i: nat, temp: Path, inode: nat)
    requires SuccessStands(w, s) && Fresh(w, s, s', i, temp, inode)
    ensures SuccessStands(w, s')
  {}

  lemma CreateInv(w: World, s: State, s': State, i: nat, inode: nat)
    requires Inv(w, s) && DestinationsApart(w) && i in s.pcs && i in w.jobs && Create(w, s, s', i, inode)
    ensures Inv(w, s')
  {
    var temp := TempPath(w.jobs[i], s.pcs[i].number);
    assert InSpace(w, w.jobs[i], temp);
    if Goes(s, s', i, Done(false, false)) {
      GoesInv(w, s, s', i, Done(false, false));
    } else if temp in s.fs {
      GoesInv(w, s, s', i, Creating(s.pcs[i].attempts + 1));
    } else {
      FreshOwned(w, s, s', i, temp, inode);
      FreshContents(w, s, s', i, temp, inode);
      FreshExplained(w, s, s', i, temp, inode);
      FreshSuccess(w, s, s', i, temp, inode);
    }
  }

  /** One more piece of the bytes reaches the temporary file. */
  ghost predicate Grows(w: World, s: State, s': State, i: nat, written: nat) {
    && i in s.pcs && i in w.jobs && s.pcs[i].Writing? && s.pcs[i].written < written <= |w.jobs[i].bytes|
    && s' == s.(data := s.data[s.pcs[i].inode := w.jobs[i].bytes[..written]],
                pcs := s.pcs[i := Writing(s.pcs[i].temp, s.pcs[i].inode, written)])
  }

  lemma GrowContents(w: World, s: State, s': State, i: nat, written: nat)
    requires Bookkept(w, s) && TempsOwned(w, s) && ContentsRight(w, s) && Grows(w, s, s', i, written)
    ensures Bookkept(w, s') && TempsOwned(w, s') && ContentsRight(w, s')
  {
    var inode := s.pcs[i].inode;
    assert forall j | j in s.pcs && j in w.jobs && Owns(s.pcs[j]) && j != i :: s.pcs[j].inode != inode;
  }

  lemma BytesInv(w: World, s: State, s': State, i: nat, written: nat)
    requires Inv(w, s) && Grows(w, s, s', i, written)
    ensures Inv(w, s')
  {
    GrowContents(w, s, s', i, written);
  }

  lemma WriteInv(w: World, s: State, s': State, i: nat, written: nat)
    requires Inv(w, s) && i in s.pcs && i in w.jobs && Write(w, s, s', i, written)
    ensures Inv(w, s')
  {
    var Writing(temp, inode, n) := s.pcs[i];
    if Goes(s, s', i, Failing(temp, inode)) {
      OwnerGoesInv(w, s, s', i, Failing(temp, inode));
    } else if Goes(s, s', i, Synced(temp, inode)) && n == |w.jobs[i].bytes| {
      OwnerGoesInv(w, s, s', i, Synced(temp, inode));
    } else {
      BytesInv(w, s, s', i, written);
    }
  }

  /** The successful hard_link. */
  ghost predicate Publishes(w: World, s: State, s': State, i: nat) {
    && i in s.pcs && i in w.jobs && s.pcs[i].Synced? && w.jobs[i].path !in s.fs
    && s' == s.(fs := s.fs[w.jobs[i].path := s.pcs[i].inode],
                pcs := s.pcs[i := Linked(s.pcs[i].temp, s.pcs[i].inode, true)])
  }

  lemma PublishExplained(w: World, s: State, s': State, i: nat)
    requires TempsOwned(w, s) && ContentsRight(w, s) && FilesExplained(w, s) && Publishes(w, s, s', i)
    ensures FilesExplained(w, s')
  {
    forall p | p in s'.fs && s'.fs[p] in s'.origin && s'.origin[s'.fs[p]].By?
      ensures Explained(w, s', p, s'.origin[s'.fs[p]].publisher)
    {
      if p != w.jobs[i].path {
        assert Explained(w, s, p, s.origin[s.fs[p]].publisher);
      }
    }
  }

  lemma PublishInv(w: World, s: State, s': State, i: nat)
    requires Inv(w, s) && Publishes(w, s, s', i)
    ensures Inv(w, s')
  {
    PublishExplained(w, s, s', i);
  }

  lemma LinkInv(w: World, s: State, s': State, i: nat)
    requires Inv(w, s) && i in s.pcs && i in w.jobs && Link(w, s, s', i)
    ensures Inv(w, s')
  {
    var Synced(temp, inode) := s.pcs[i];
    if Goes(s, s', i, Linked(temp, inode, false)) {
      OwnerGoesInv(w, s, s', i, Linked(temp, inode, false));
    } else {
      PublishInv(w, s, s', i);
    }
  }

  /** The removal that works. */
  ghost predicate Unlinks(s: State, s': State, i: nat, ok: bool) {
    && i in s.pcs && Owns(s.pcs[i]) && (ok <==> Succeeded(s.pcs[i]))
    && s' == s.(fs := s.fs - {s.pcs[i].temp}, pcs := s.pcs[i := Done(ok, false)])
  }

  lemma UnlinkContents(w: World, s: State, s': State, i: nat, ok: bool)
    requires Bookkept(w, s) && ContentsRight(w, s) && Unlinks(s, s', i, ok)
    ensures ContentsRight(w, s') && Bookkept(w, s')
  {}

  lemma UnlinkExplained(w: World, s: State, s': State, i: nat, ok: bool)
    requires FilesExplained(w, s) && Unlinks(s, s', i, ok)
    ensures FilesExplained(w, s')
  {
    forall p | p in s'.fs && s'.fs[p] in s'.origin && s'.origin[s'.fs[p]].By?
      ensures Explained(w, s', p, s'.origin[s'.fs[p]].publisher)
    {
      assert Explained(w, s, p, s.origin[s.fs[p]].publisher);
    }
  }

  lemma UnlinkSuccess(w: World, s: State, s': State, i: nat, ok: bool)
    requires Bookkept(w, s) && TempsOwned(w, s) && SuccessStands(w, s) && DestinationsApart(w) && Unlinks(s, s', i, ok)
    ensures SuccessStands(w, s')
  {
    assert forall j | j in w.jobs :: !InSpace(w, w.jobs[i], w.jobs[j].path);
  }

  /** The removal that fails leaves the temporary file as a leak. */
  lemma LeakInv(w: World, s: State, s': State, i: nat, ok: bool)
    requires Inv(w, s) && i in s.pcs && i in w.jobs && Owns(s.pcs[i]) && (ok <==> Succeeded(s.pcs[i]))
    requires Goes(s, s', i, Done(ok, true))
    ensures Inv(w, s')
  {
    hide ContentsRight, FilesExplained;
    LeakKeepsFiles(w, s, s', i, ok);
    assert TempsOwned(w, s');
    assert SuccessStands(w, s');
  }

  lemma LeakKeepsFiles(w: World, s: State, s': State, i: nat, ok: bool)
    requires ContentsRight(w, s) && FilesExplained(w, s) && i in s.pcs && i in w.jobs
    requires Owns(s.pcs[i]) && (ok <==> Succeeded(s.pcs[i])) && Goes(s, s', i, Done(ok, true))
    ensures ContentsRight(w, s') && FilesExplained(w, s')
  {}

  lemma RemoveInv(w: World, s: State, s': State, i: nat)
    requires Inv(w, s) && DestinationsApart(w) && i in s.pcs && i in w.jobs && Remove(s, s', i)
    ensures Inv(w, s')
  {
    var ok := Succeeded(s.pcs[i]);
    if Goes(s, s', i, Done(ok, true)) {
      LeakInv(w, s, s', i, ok);
    } else {
      UnlinkContents(w, s, s', i, ok);
      UnlinkExplained(w, s, s', i, ok);
      UnlinkSuccess(w, s, s', i, ok);
    }
  }

  lemma OutsideInv(w: World, s: State, s': State, path: Path, inode: nat, bytes: Bytes)
    requires Inv(w, s) && OutsideCreates(s, s', path, inode, bytes)
    ensures Inv(w, s')
  {}

  lemma StepInv(w: World, s: State, s': State, i: nat)
    requires Inv(w, s) && DestinationsApart(w) && Step(w, s, s', i)
    ensures Inv(w, s')
  {
    if Check(w, s, s', i) {
      CheckInv(w, s, s', i);
    } else if Reserve(w, s, s', i) {
      ReserveInv(w, s, s', i);
    } else if inode :| Create(w, s, s', i, inode) {
      CreateInv(w, s, s', i, inode);
    } else if written :| Write(w, s, s', i, written) {
      WriteInv(w, s, s', i, written);
    } else if Link(w, s, s', i) {
      LinkInv(w, s, s', i);
    } else {
      RemoveInv(w, s, s', i);
    }
  }

  lemma NextInv(w: World, s: State, s': State)
    requires Inv(w, s) && DestinationsApart(w) && Next(w, s, s')
    ensures Inv(w, s')
  {
    if i :| Step(w, s, s', i) {
      StepInv(w, s, s', i);
    } else {
      var path, inode, bytes :| OutsideCreates(s, s', path, inode, bytes);
      OutsideInv(w, s, s', path, inode, bytes);
    }
  }

  // ---------- runs ----------

  lemma {:induction false} RunInv(w: World, run: seq<State>, k: nat)
    requires DestinationsApart(w) && IsRun(w, run) && k < |run|
    ensures Inv(w, run[k])
  {
    if k == 0 {
      InitInv(w, run[0]);
    } else {
      RunInv(w, run, k - 1);
      NextInv(w, run[k - 1], run[k]);
    }
  }

  /** A present destination is complete in any reachable state. */
  lemma PresentIsComplete(w: World, s: State, i: nat)
    requires DestinationsApart(w) && Inv(w, s) && i in w.jobs && w.jobs[i].path in s.fs
    ensures Complete(w, s, w.jobs[i].path)
  {
    var p := w.jobs[i].path;
    var o := s.origin[s.fs[p]];
    if o.By? {
      assert Explained(w, s, p, o.publisher);
      assert !InSpace(w, w.jobs[o.publisher], p);
    }
  }

  /** No step takes a destination away or changes its bytes. */
  lemma StepKeeps(w: World, s: State, s': State, i: nat, j: nat)
    requires DestinationsApart(w) && Inv(w, s) && Step(w, s, s', j) && i in w.jobs && w.jobs[i].path in s.fs
    ensures Stands(w, s, s', w.jobs[i].path)
  {
    hide Bookkept, ContentsRight, FilesExplained, SuccessStands;
    PresentIsComplete(w, s, i);
    assert !InSpace(w, w.jobs[j], w.jobs[i].path);
  }

  lemma NextKeeps(w: World, s: State, s': State, i: nat)
    requires DestinationsApart(w) && Inv(w, s) && Next(w, s, s') && i in w.jobs
    ensures Stands(w, s, s', w.jobs[i].path)
  {
    if w.jobs[i].path in s.fs {
      PresentIsComplete(w, s, i);
      if j :| Step(w, s, s', j) {
        StepKeeps(w, s, s', i, j);
      }
    }
  }

  lemma {:induction false} RunKeeps(w: World, run: seq<State>, k: nat, m: nat, i: nat)
    requires DestinationsApart(w) && IsRun(w, run) && k <= m < |run| && i in w.jobs
    ensures Stands(w, run[k], run[m], w.jobs[i].path)
    decreases m
  {
    hide Inv, Next, Stands, DestinationsApart;
    RunInv(w, run, if k == m then k else m - 1);
    if k == m {
      StandsStill(w, run[k], i);
    } else {
      RunKeeps(w, run, k, m - 1, i);
      NextKeeps(w, run[m - 1], run[m], i);
      StandsOn(w, run[k], run[m - 1], run[m], w.jobs[i].path);
    }
  }

  lemma StandsStill(w: World, s: State, i: nat)
    requires DestinationsApart(w) && Inv(w, s) && i in w.jobs
    ensures Stands(w, s, s, w.jobs[i].path)
  {
    hide Inv;
    if w.jobs[i].path in s.fs {
      PresentIsComplete(w, s, i);
    }
  }

  lemma StandsOn(w: World, a: State, b: State, c: State, p: Path)
    requires Stands(w, a, b, p) && Stands(w, b, c, p)
    ensures Stands(w, a, c, p)
  {}

  // ---------- the converse ----------

  /** The states of a run in which publisher j makes its temporary file exactly
      where i's destination is, fails to write it, and removes it. */
  function Clash(w: World, i: nat, j: nat): (run: seq<State>)
    requires i in w.jobs && j in w.jobs && w.jobs[i].path.name.TempName?
  {
    var p := w.jobs[i].path;
    var counter := w.jobs[j].counter;
    var start: map<nat, Pc> := map k | k in w.jobs :: Start;
    var counters: map<nat, Ticket> := map[counter := p.name.number];
    var next: Ticket := (p.name.number + 1) % COUNTER_VALUES;
    var s0 := State(map[], map[], map[], counters, start);
    var s1 := s0.(pcs := start[j := Creating(0)]);
    var s2 := s1.(counters := counters[counter := next], pcs := s1.pcs[j := Reserved(0, p.name.number)]);
    var s3 := s2.(fs := s2.fs[p := 0], data := s2.data[0 := []], origin := s2.origin[0 := By(j)],
                  pcs := s2.pcs[j := Writing(p, 0, 0)]);
    [s0, s1, s2, s3]
  }

  lemma ClashIsRun(w: World, i: nat, j: nat)
    requires i in w.jobs && j in w.jobs && InSpace(w, w.jobs[j], w.jobs[i].path)
    ensures IsRun(w, Clash(w, i, j))
  {
    var run := Clash(w, i, j);
    assert Check(w, run[0], run[1], j);
    assert Step(w, run[0], run[1], j);
    assert Reserve(w, run[1], run[2], j);
    assert Step(w, run[1], run[2], j);
    assert Create(w, run[2], run[3], j, 0);
    assert Step(w, run[2], run[3], j);
  }

  lemma ClashIsWrong(w: World, i: nat, j: nat)
    requires i in w.jobs && j in w.jobs && InSpace(w, w.jobs[j], w.jobs[i].path)
    ensures !RunStands(w, Clash(w, i, j))
  {
    var run := Clash(w, i, j);
    assert !Complete(w, run[3], w.jobs[i].path);
    assert !Stands(w, run[3], run[3], w.jobs[i].path);
  }

  /** Every run keeps every destination whole and fixed, once present, exactly when
      no destination lies where a publisher makes temporary files. */
  lemma StandsExactlyWhenApart(w: World)
    ensures DestinationsApart(w) <==> (forall run :: IsRun(w, run) ==> RunStands(w, run))
  {
    if DestinationsApart(w) {
      forall run, k, m, i | IsRun(w, run) && 0 <= k <= m < |run| && i in w.jobs
        ensures Stands(w, run[k], run[m], w.jobs[i].path)
      {
        RunKeeps(w, run, k, m, i);
      }
    } else {
      var i, j :| i in w.jobs && j in w.jobs && InSpace(w, w.jobs[j], w.jobs[i].path);
      ClashIsRun(w, i, j);
      ClashIsWrong(w, i, j);
    }
  }

  lemma RunsExclusive(w: World, run: seq<State>, k: nat)
    requires DestinationsApart(w) && IsRun(w, run) && k < |run|
    ensures Exclusive(w, run[k]) && NoResidue(w, run[k])
    ensures forall i | i in w.jobs && i in run[k].pcs && Succeeded(run[k].pcs[i]) ::
      w.jobs[i].path in run[k].fs && run[k].fs[w.jobs[i].path] in run[k].data
      && run[k].data[run[k].fs[w.jobs[i].path]] == w.jobs[i].bytes
  {
    RunInv(w, run, k);
    forall i | i in w.jobs && i in run[k].pcs && Succeeded(run[k].pcs[i])
      ensures w.jobs[i].path in run[k].fs && run[k].fs[w.jobs[i].path] in run[k].data
      ensures run[k].data[run[k].fs[w.jobs[i].path]] == w.jobs[i].bytes
    {
      assert Explained(w, run[k], w.jobs[i].path, i);
    }
  }

  // ---------- every call ends ----------

  /** An upper bound on the steps a call has left. */
  ghost function Rank(job: Job, pc: Pc): int {
    match pc
    case Start => |job.bytes| + 2 * MAX_TEMP_CREATE_ATTEMPTS + 6
    case Creating(k) => |job.bytes| + 2 * (MAX_TEMP_CREATE_ATTEMPTS - k) + 5
    case Reserved(k, _) => |job.bytes| + 2 * (MAX_TEMP_CREATE_ATTEMPTS - k) + 4
    case Writing(_, _, written) => |job.bytes| - written + 3
    case Synced(_, _) => 2
    case Failing(_, _) => 1
    case Linked(_, _, _) => 1
    case Done(_, _) => 0
  }

  /** Call i alone has moved, strictly closer to returning. */
  ghost predicate Closer(w: World, s: State, s': State, i: nat) {
    && i in w.jobs && i in s.pcs && i in s'.pcs && s'.pcs == s.pcs[i := s'.pcs[i]]
    && 0 <= Rank(w.jobs[i], s'.pcs[i]) < Rank(w.jobs[i], s.pcs[i])
  }

  lemma WriteCloser(w: World, s: State, s': State, i: nat, written: nat)
    requires i in s.pcs && i in w.jobs && ContentsRight(w, s) && Write(w, s, s', i, written)
    ensures Closer(w, s, s', i)
  {}

  lemma CreateCloser(w: World, s: State, s': State, i: nat, inode: nat)
    requires i in s.pcs && i in w.jobs && Bookkept(w, s) && Create(w, s, s', i, inode)
    ensures Closer(w, s, s', i)
  {}

  lemma ReserveCloser(w: World, s: State, s': State, i: nat)
    requires i in s.pcs && i in w.jobs && Bookkept(w, s) && (Check(w, s, s', i) || Reserve(w, s, s', i))
    ensures Closer(w, s, s', i)
  {}

  lemma LinkCloser(w: World, s: State, s': State, i: nat)
    requires i in s.pcs && i in w.jobs && (Link(w, s, s', i) || Remove(s, s', i))
    ensures Closer(w, s, s', i)
  {}

  /** Each step brings its own call strictly closer to returning and no other call
      further away, so a call takes at most |bytes| + 134 steps; a call that has not
      returned can always take one. */
  lemma CallsEnd(w: World, s: State, s': State, i: nat)
    requires Inv(w, s) && Step(w, s, s', i)
    ensures Closer(w, s, s', i)
  {
    if inode :| Create(w, s, s', i, inode) {
      CreateCloser(w, s, s', i, inode);
    } else if written :| Write(w, s, s', i, written) {
      WriteCloser(w, s, s', i, written);
    } else if Link(w, s, s', i) || Remove(s, s', i) {
      LinkCloser(w, s, s', i);
    } else {
      ReserveCloser(w, s, s', i);
    }
  }

  lemma NeverStuck(w: World, s: State, i: nat)
    requires Inv(w, s) && i in w.jobs && !s.pcs[i].Done?
    ensures exists s' :: Step(w, s, s', i)
  {
    var pc := s.pcs[i];
    var next := match pc
      case Start => if w.jobs[i].path.dir !in w.dirs || w.jobs[i].path in s.fs then Done(false, false) else Creating(0)
      case Creating(k) =>
        if k >= MAX_TEMP_CREATE_ATTEMPTS then Done(false, false) else Reserved(k, Counter(s, w.jobs[i].counter))
      case Reserved(_, _) => Done(false, false)
      case Writing(temp, inode, _) => Failing(temp, inode)
      case Synced(temp, inode) => Linked(temp, inode, false)
      case Failing(_, _) => Done(false, true)
      case Linked(_, _, ok) => Done(ok, true)
      case Done(ok, leaked) => pc;
    var counter := w.jobs[i].counter;
    var bump: Ticket := (Counter(s, counter) + 1) % COUNTER_VALUES;
    var counters := if next.Reserved? then s.counters[counter := bump] else s.counters;
    var s' := s.(counters := counters, pcs := s.pcs[i := next]);
    if pc.Start? {
      assert Check(w, s, s', i);
    } else if pc.Creating? {
      assert Reserve(w, s, s', i);
    } else if pc.Reserved? {
      assert Create(w, s, s', i, 0);
    } else if pc.Writing? {
      assert Write(w, s, s', i, 0);
    } else if pc.Synced? {
      assert Link(w, s, s', i);
    } else {
      assert Remove(s, s', i);
    }
    assert Step(w, s, s', i);
  }
}
