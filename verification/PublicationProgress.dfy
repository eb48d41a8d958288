/** What a publisher achieves when no file-system call fails it. */
module PublicationProgress {
  // In the step system every file-system call may fail. Here the steps in which none does
  // are singled out: a name that exists is retried, a destination that exists is refused, and
  // everything else goes through. Other publishers and other programs stay free to interfere.

  import opened Publication

  /** Call i takes a step in which no file-system call fails for a reason of its own. */
  ghost predicate Smooth(w: World, s: State, s': State, i: nat) {
    && Step(w, s, s', i) && i in s'.pcs
    && match s.pcs[i]
       case Start => true
       case Creating(_) => true
       case Reserved(k, number) =>
         if TempPath(w.jobs[i], number) in s.fs then s'.pcs[i] == Creating(k + 1) else s'.pcs[i].Writing?
       case Writing(_, _, _) => !s'.pcs[i].Failing?
       case Synced(temp, inode) => s'.pcs[i] == Linked(temp, inode, w.jobs[i].path !in s.fs)
       case Failing(_, _) => s'.pcs[i] == Done(false, false)
       case Linked(_, _, ok) => s'.pcs[i] == Done(ok, false)
       case Done(_, _) => false
  }

  /** Only call i moves, and smoothly. */
  ghost predicate Alone(w: World, run: seq<State>, i: nat) {
    |run| > 0 && forall k | 0 < k < |run| :: Smooth(w, run[k - 1], run[k], i)
  }

  lemma AloneJoin(w: World, a: seq<State>, b: seq<State>, i: nat)
    requires Alone(w, a, i) && Alone(w, b, i) && a[|a| - 1] == b[0]
    ensures Alone(w, a + b[1..], i)
    ensures (a + b[1..])[0] == a[0] && (a + b[1..])[|a + b[1..]| - 1] == b[|b| - 1]
  {
    hide Smooth;
    var run := a + b[1..];
    forall k | 0 < k < |run| ensures Smooth(w, run[k - 1], run[k], i) {
      if k >= |a| {
        assert run[k] == b[k - |a| + 1] && run[k - 1] == b[k - |a|];
      }
    }
  }

  // ---------- a publisher left alone ----------

  /** The temporary name that is t draws of the counter ahead. */
  function NameAhead(w: World, s: State, i: nat, t: nat): Path
    requires i in w.jobs
  {
    TempPath(w.jobs[i], (Counter(s, w.jobs[i].counter) + t) % COUNTER_VALUES)
  }

  /** Different processes, directories and draws, up to a whole turn of the counter, give different names. */
  lemma NamesDiffer(w: World, s: State, i: nat, t: nat, j: nat, u: nat)
    requires i in w.jobs && j in w.jobs && t < COUNTER_VALUES && u < COUNTER_VALUES
    requires NameAhead(w, s, i, t) == NameAhead(w, s, j, u)
    ensures w.jobs[i].pid == w.jobs[j].pid && w.jobs[i].path.dir == w.jobs[j].path.dir
    ensures w.jobs[i].counter == w.jobs[j].counter ==> t == u
  {}

  /** The first free temporary name is t draws ahead. */
  ghost predicate FirstFree(w: World, s: State, i: nat, t: nat)
    requires i in w.jobs
  {
    NameAhead(w, s, i, t) !in s.fs && forall u: nat | u < t :: NameAhead(w, s, i, u) in s.fs
  }

  /** The state in which call i has just created its temporary file. */
  ghost predicate Created(s: State, s': State, i: nat, temp: Path, inode: nat) {
    && s'.fs == s.fs[temp := inode] && s'.data == s.data[inode := []] && s'.origin == s.origin[inode := By(i)]
    && s'.pcs == s.pcs[i := Writing(temp, inode, 0)]
  }

  lemma DrawAhead(c: nat, t: nat)
    ensures ((c + 1) % COUNTER_VALUES + t) % COUNTER_VALUES == (c + (t + 1)) % COUNTER_VALUES
  {}

  ghost function Reserving(w: World, s: State, i: nat, k: nat): State
    requires i in w.jobs
  {
    var counter := w.jobs[i].counter;
    s.(counters := s.counters[counter := (Counter(s, counter) + 1) % COUNTER_VALUES],
       pcs := s.pcs[i := Reserved(k, Counter(s, counter))])
  }

  lemma ReserveSmoothly(w: World, s: State, i: nat, k: nat)
    requires i in w.jobs && i in s.pcs && s.pcs[i] == Creating(k) && k < MAX_TEMP_CREATE_ATTEMPTS
    ensures Smooth(w, s, Reserving(w, s, i, k), i)
  {
    assert Reserve(w, s, Reserving(w, s, i, k), i);
  }

  /** Names that exist are passed over, at most 64 in all, and the first free one is taken. */
  lemma {:induction false} FindName(w: World, s: State, i: nat, k: nat, t: nat, inode: nat)
    returns (run: seq<State>)
    requires i in w.jobs && i in s.pcs && s.pcs[i] == Creating(k) && k + t < MAX_TEMP_CREATE_ATTEMPTS
    requires FirstFree(w, s, i, t) && inode !in s.origin
    ensures run != [] && Alone(w, run, i) && run[0] == s
    ensures Created(s, run[|run| - 1], i, NameAhead(w, s, i, t), inode)
    decreases t
  {
    hide Alone, Smooth, Step;
    var reserved := Reserving(w, s, i, k);
    ReserveSmoothly(w, s, i, k);
    if t == 0 {
      var temp := NameAhead(w, s, i, 0);
      var created := reserved.(fs := s.fs[temp := inode], data := s.data[inode := []],
                               origin := s.origin[inode := By(i)], pcs := s.pcs[i := Writing(temp, inode, 0)]);
      CreateSmoothly(w, s, i, k, reserved, created, temp, inode);
      run := [s, reserved, created];
      TwoSteps(w, s, reserved, created, i);
    } else {
      var again := reserved.(pcs := s.pcs[i := Creating(k + 1)]);
      assert NameAhead(w, s, i, 0) in s.fs;
      RetrySmoothly(w, s, i, k, reserved, again);
      FreeAhead(w, s, i, t, again);
      var rest := FindName(w, again, i, k + 1, t - 1, inode);
      TwoSteps(w, s, reserved, again, i);
      AloneJoin(w, [s, reserved, again], rest, i);
      run := [s, reserved, again] + rest[1..];
    }
  }

  lemma TwoSteps(w: World, a: State, b: State, c: State, i: nat)
    requires Smooth(w, a, b, i) && Smooth(w, b, c, i)
    ensures Alone(w, [a, b, c], i)
  {
    hide Smooth;
  }

  lemma FreeAhead(w: World, s: State, i: nat, t: nat, s': State)
    requires i in w.jobs && t > 0 && FirstFree(w, s, i, t) && s'.fs == s.fs
    requires Counter(s', w.jobs[i].counter) == (Counter(s, w.jobs[i].counter) + 1) % COUNTER_VALUES
    ensures FirstFree(w, s', i, t - 1) && NameAhead(w, s', i, t - 1) == NameAhead(w, s, i, t)
  {
    forall u: nat | u < t ensures NameAhead(w, s', i, u) == NameAhead(w, s, i, u + 1) {
      DrawAhead(Counter(s, w.jobs[i].counter), u);
    }
  }

  lemma RetrySmoothly(w: World, s: State, i: nat, k: nat, reserved: State, again: State)
    requires i in w.jobs && i in s.pcs && reserved == Reserving(w, s, i, k)
    requires NameAhead(w, s, i, 0) in s.fs && again == reserved.(pcs := s.pcs[i := Creating(k + 1)])
    ensures Smooth(w, reserved, again, i)
  {
    assert Goes(reserved, again, i, Creating(k + 1)) by {
      assert reserved.pcs[i := Creating(k + 1)] == again.pcs;
    }
    assert Create(w, reserved, again, i, 0);
  }

  lemma CreateSmoothly(w: World, s: State, i: nat, k: nat, reserved: State, created: State, temp: Path, inode: nat)
    requires i in w.jobs && i in s.pcs && reserved == Reserving(w, s, i, k)
    requires temp == NameAhead(w, s, i, 0) && temp !in s.fs && inode !in s.origin
    requires created == reserved.(fs := s.fs[temp := inode], data := s.data[inode := []],
                                  origin := s.origin[inode := By(i)], pcs := s.pcs[i := Writing(temp, inode, 0)])
    ensures Smooth(w, reserved, created, i)
  {
    assert reserved.pcs[i := Writing(temp, inode, 0)] == created.pcs;
    assert Create(w, reserved, created, i, inode);
  }

  /** The temporary file is written in one piece and synced. */
  lemma WriteAlone(w: World, s: State, i: nat, temp: Path, inode: nat) returns (run: seq<State>)
    requires i in w.jobs && i in s.pcs && s.pcs[i] == Writing(temp, inode, 0) && inode in s.data && s.data[inode] == []
    ensures run != [] && Alone(w, run, i) && run[0] == s
    ensures run[|run| - 1] == s.(data := s.data[inode := w.jobs[i].bytes], pcs := s.pcs[i := Synced(temp, inode)])
  {
    var bytes := w.jobs[i].bytes;
    var written := s.(data := s.data[inode := bytes], pcs := s.pcs[i := Writing(temp, inode, |bytes|)]);
    var synced := s.(data := s.data[inode := bytes], pcs := s.pcs[i := Synced(temp, inode)]);
    assert written.pcs[i := Synced(temp, inode)] == synced.pcs;
    assert Write(w, written, synced, i, 0);
    if bytes == [] {
      assert written == s by {
        assert written.pcs == s.pcs && written.data == s.data;
      }
      run := [s, synced];
    } else {
      assert bytes[..|bytes|] == bytes;
      assert Write(w, s, written, i, |bytes|);
      run := [s, written, synced];
    }
  }

  /** The file gets its destination and loses its temporary name. */
  lemma LinkAlone(w: World, s: State, i: nat, temp: Path, inode: nat) returns (run: seq<State>)
    requires i in w.jobs && i in s.pcs && s.pcs[i] == Synced(temp, inode)
    requires temp in s.fs && s.fs[temp] == inode && w.jobs[i].path !in s.fs
    ensures run != [] && Alone(w, run, i) && run[0] == s
    ensures run[|run| - 1]
         == s.(fs := s.fs[w.jobs[i].path := inode] - {temp}, pcs := s.pcs[i := Done(true, false)])
  {
    var linked := s.(fs := s.fs[w.jobs[i].path := inode], pcs := s.pcs[i := Linked(temp, inode, true)]);
    var done := linked.(fs := linked.fs - {temp}, pcs := s.pcs[i := Done(true, false)]);
    assert Link(w, s, linked, i);
    assert linked.pcs[i := Done(true, false)] == done.pcs;
    assert Remove(linked, done, i);
    run := [s, linked, done];
  }

  lemma {:induction false} FreshNumber(used: set<nat>) returns (n: nat)
    ensures n !in used && forall m: nat | m in used :: m < n
  {
    if used == {} {
      n := 0;
    } else {
      var x: nat :| x in used;
      var rest := FreshNumber(used - {x});
      n := if rest <= x then x + 1 else rest;
      assert forall m: nat | m in used :: m == x || m in used - {x};
    }
  }

  /** Everything is as before, but the destination is there with the bytes of call i. */
  ghost predicate Published(w: World, s: State, s': State, i: nat)
    requires i in w.jobs
  {
    && i in s'.pcs && s'.pcs[i] == Done(true, false)
    && exists inode: nat :: inode !in s.origin && s'.fs == s.fs[w.jobs[i].path := inode]
         && s'.data == s.data[inode := w.jobs[i].bytes]
  }

  /** From any state, a call at its start whose directory exists and whose destination is free publishes
      when it is left alone and nothing fails, if the first free temporary name is among the next 64
      and is not the destination itself. The destination is then the only new file. */
  lemma CanPublish(w: World, s: State, i: nat, t: nat)
    requires i in w.jobs && i in s.pcs && s.pcs[i] == Start
    requires w.jobs[i].path.dir in w.dirs && w.jobs[i].path !in s.fs
    requires t < MAX_TEMP_CREATE_ATTEMPTS && FirstFree(w, s, i, t) && NameAhead(w, s, i, t) != w.jobs[i].path
    ensures exists run :: Alone(w, run, i) && run[0] == s && Published(w, s, run[|run| - 1], i)
  {
    hide Alone, Smooth, Step, NameAhead;
    var path, bytes := w.jobs[i].path, w.jobs[i].bytes;
    var inode := FreshNumber(s.origin.Keys);
    var checked := s.(pcs := s.pcs[i := Creating(0)]);
    var first := CheckAlone(w, s, i, checked);
    SameNames(w, s, checked, i, t);
    var second := FindName(w, checked, i, 0, t, inode);
    var created := second[|second| - 1];
    var temp := NameAhead(w, checked, i, t);
    var third := WriteAlone(w, created, i, temp, inode);
    var synced := third[|third| - 1];
    var fourth := LinkAlone(w, synced, i, temp, inode);
    var done := fourth[|fourth| - 1];
    assert done.fs == s.fs[path := inode];
    assert done.data == s.data[inode := bytes];
    AloneJoin(w, first, second, i);
    AloneJoin(w, first + second[1..], third, i);
    AloneJoin(w, first + second[1..] + third[1..], fourth, i);
  }

  lemma CheckAlone(w: World, s: State, i: nat, checked: State) returns (run: seq<State>)
    requires i in w.jobs && i in s.pcs && s.pcs[i] == Start && checked == s.(pcs := s.pcs[i := Creating(0)])
    requires w.jobs[i].path.dir in w.dirs && w.jobs[i].path !in s.fs
    ensures run != [] && Alone(w, run, i) && run[0] == s && run[|run| - 1] == checked
  {
    assert Check(w, s, checked, i);
    run := [s, checked];
  }

  lemma SameNames(w: World, s: State, s': State, i: nat, t: nat)
    requires i in w.jobs && s'.fs == s.fs && s'.counters == s.counters
    ensures FirstFree(w, s', i, t) == FirstFree(w, s, i, t) && NameAhead(w, s', i, t) == NameAhead(w, s, i, t)
  {
    assert forall u: nat :: NameAhead(w, s', i, u) == NameAhead(w, s, i, u);
  }

  // ---------- a publisher among others ----------

  /** The moment at which the outcome of call i is settled: its directory is missing or its destination
      taken at the start, all 64 names are used up, or it links, which works exactly when the destination is free. */
  ghost predicate Settles(w: World, s: State, i: nat, ok: bool) {
    && i in w.jobs && i in s.pcs
    && match s.pcs[i]
       case Start => !ok && (w.jobs[i].path.dir !in w.dirs || w.jobs[i].path in s.fs)
       case Creating(k) => !ok && k == MAX_TEMP_CREATE_ATTEMPTS
       case Synced(_, _) => ok <==> w.jobs[i].path !in s.fs
       case _ => false
  }

  /** In this run no step of call i meets a failure. */
  ghost predicate NeverFails(w: World, run: seq<State>, i: nat) {
    forall k | 0 < k < |run| && Step(w, run[k - 1], run[k], i) :: Smooth(w, run[k - 1], run[k], i)
  }

  /** What is known of call i after k steps without a failure: once it has linked or returned, the moment
      that settled its outcome lies behind, and it leaves no temporary file. */
  ghost predicate OnTrack(w: World, run: seq<State>, i: nat, k: nat)
    requires k < |run|
  {
    && i in run[k].pcs && !run[k].pcs[i].Failing?
    && (run[k].pcs[i].Linked? || run[k].pcs[i].Done? ==>
          exists m :: 0 <= m < k && Settles(w, run[m], i, run[k].pcs[i].ok))
    && (run[k].pcs[i].Done? ==> !run[k].pcs[i].leaked)
  }

  /** A smooth step that ends call i or links it settles its outcome or keeps a settled one. */
  lemma SmoothStep(w: World, s: State, s': State, i: nat)
    requires Bookkept(w, s) && Smooth(w, s, s', i) && !s.pcs[i].Failing?
    ensures !s'.pcs[i].Failing?
    ensures s'.pcs[i].Linked? ==> Settles(w, s, i, s'.pcs[i].ok)
    ensures s'.pcs[i].Done? ==> !s'.pcs[i].leaked
    ensures s'.pcs[i].Done? ==> Settles(w, s, i, s'.pcs[i].ok) || (s.pcs[i].Linked? && s.pcs[i].ok == s'.pcs[i].ok)
  {}

  /** A step that is not call i's leaves it where it is. */
  lemma OtherStep(w: World, s: State, s': State, i: nat)
    requires Next(w, s, s') && !Step(w, s, s', i) && i in s.pcs
    ensures i in s'.pcs && s'.pcs[i] == s.pcs[i]
  {
    hide Step;
    if j :| Step(w, s, s', j) {
      StepMoves(w, s, s', j, i);
    }
  }

  lemma StepMoves(w: World, s: State, s': State, j: nat, i: nat)
    requires Step(w, s, s', j) && i != j && i in s.pcs
    ensures i in s'.pcs && s'.pcs[i] == s.pcs[i]
  {
    if inode :| Create(w, s, s', j, inode) {
      CreateMoves(w, s, s', j, inode);
    } else if written :| Write(w, s, s', j, written) {
      WriteMoves(w, s, s', j, written);
    } else {
      OthersMove(w, s, s', j);
    }
  }

  lemma CreateMoves(w: World, s: State, s': State, j: nat, inode: nat)
    requires j in s.pcs && j in w.jobs && Create(w, s, s', j, inode)
    ensures j in s'.pcs && s'.pcs == s.pcs[j := s'.pcs[j]]
  {}

  lemma WriteMoves(w: World, s: State, s': State, j: nat, written: nat)
    requires j in s.pcs && j in w.jobs && Write(w, s, s', j, written)
    ensures j in s'.pcs && s'.pcs == s.pcs[j := s'.pcs[j]]
  {}

  lemma OthersMove(w: World, s: State, s': State, j: nat)
    requires j in s.pcs && j in w.jobs
    requires Check(w, s, s', j) || Reserve(w, s, s', j) || Link(w, s, s', j) || Remove(s, s', j)
    ensures j in s'.pcs && s'.pcs == s.pcs[j := s'.pcs[j]]
  {}

  lemma {:induction false} StaysOnTrack(w: World, run: seq<State>, i: nat, k: nat)
    requires DestinationsApart(w) && IsRun(w, run) && i in w.jobs && NeverFails(w, run, i) && k < |run|
    ensures OnTrack(w, run, i, k)
  {
    hide Next, Step, Smooth, Settles, Inv, Init;
    if k == 0 {
      StartsOnTrack(w, run, i);
    } else {
      StaysOnTrack(w, run, i, k - 1);
      var s, s' := run[k - 1], run[k];
      assert Next(w, s, s');
      if Step(w, s, s', i) {
        RunInv(w, run, k - 1);
        assert Bookkept(w, s) by {
          InvBooks(w, s);
        }
        SmoothMoves(w, s, s', i);
        SmoothStep(w, s, s', i);
      } else {
        OtherStep(w, s, s', i);
      }
    }
  }

  lemma StartsOnTrack(w: World, run: seq<State>, i: nat)
    requires IsRun(w, run) && i in w.jobs
    ensures OnTrack(w, run, i, 0)
  {}

  lemma InvBooks(w: World, s: State)
    requires Inv(w, s)
    ensures Bookkept(w, s)
  {}

  lemma SmoothMoves(w: World, s: State, s': State, i: nat)
    requires Smooth(w, s, s', i)
    ensures i in s.pcs && i in s'.pcs
  {}

  /** Whatever the other publishers and other programs do, a call that meets no failure and returns leaves
      no temporary file, and its answer was settled at one moment of the run: it is a success exactly
      when it came to link and the destination was free then. */
  lemma AnswerIsSettled(w: World, run: seq<State>, i: nat, k: nat)
    requires DestinationsApart(w) && IsRun(w, run) && i in w.jobs && NeverFails(w, run, i) && k < |run|
    requires i in run[k].pcs && run[k].pcs[i].Done?
    ensures !run[k].pcs[i].leaked
    ensures exists m :: 0 <= m < k && Settles(w, run[m], i, run[k].pcs[i].ok)
  {
    StaysOnTrack(w, run, i, k);
  }

  /** A call that has not returned can always go on without a failure. */
  lemma SmoothlyOn(w: World, s: State, i: nat)
    requires Inv(w, s) && i in w.jobs && !s.pcs[i].Done?
    ensures exists s' :: Smooth(w, s, s', i)
  {
    hide FilesExplained, SuccessStands;
    match s.pcs[i]
    case Start =>
      var refused := w.jobs[i].path.dir !in w.dirs || w.jobs[i].path in s.fs;
      var s' := s.(pcs := s.pcs[i := if refused then Done(false, false) else Creating(0)]);
      assert Check(w, s, s', i) && Smooth(w, s, s', i);
    case Creating(k) =>
      if k < MAX_TEMP_CREATE_ATTEMPTS {
        ReserveSmoothly(w, s, i, k);
      } else {
        var s' := s.(pcs := s.pcs[i := Done(false, false)]);
        assert Reserve(w, s, s', i) && Smooth(w, s, s', i);
      }
    case Reserved(k, number) =>
      var temp := TempPath(w.jobs[i], number);
      var inode := FreshNumber(s.origin.Keys);
      var s' := if temp in s.fs then s.(pcs := s.pcs[i := Creating(k + 1)])
                else s.(fs := s.fs[temp := inode], data := s.data[inode := []], origin := s.origin[inode := By(i)],
                        pcs := s.pcs[i := Writing(temp, inode, 0)]);
      assert Create(w, s, s', i, inode) && Smooth(w, s, s', i);
    case Writing(temp, inode, n) =>
      var bytes := w.jobs[i].bytes;
      var s' := if n == |bytes| then s.(pcs := s.pcs[i := Synced(temp, inode)])
                else s.(data := s.data[inode := bytes[..|bytes|]], pcs := s.pcs[i := Writing(temp, inode, |bytes|)]);
      assert Write(w, s, s', i, |bytes|) && Smooth(w, s, s', i);
    case Synced(temp, inode) =>
      var free := w.jobs[i].path !in s.fs;
      var s' := if free then s.(fs := s.fs[w.jobs[i].path := inode], pcs := s.pcs[i := Linked(temp, inode, true)])
                else s.(pcs := s.pcs[i := Linked(temp, inode, false)]);
      assert Link(w, s, s', i) && Smooth(w, s, s', i);
    case Failing(temp, _) =>
      var s' := s.(fs := s.fs - {temp}, pcs := s.pcs[i := Done(false, false)]);
      assert Remove(s, s', i) && Smooth(w, s, s', i);
    case Linked(temp, _, ok) =>
      var s' := s.(fs := s.fs - {temp}, pcs := s.pcs[i := Done(ok, false)]);
      assert Remove(s, s', i) && Smooth(w, s, s', i);
  }

  // ---------- what the system leaves open ----------

  /** Where a failing file-system call takes a publisher. */
  ghost predicate Fails(pc: Pc, pc': Pc) {
    match pc
    case Reserved(_, _) => pc' == Done(false, false)
    case Writing(temp, inode, _) => pc' == Failing(temp, inode)
    case Synced(temp, inode) => pc' == Linked(temp, inode, false)
    case Failing(_, _) => pc' == Done(false, true)
    case Linked(_, _, ok) => pc' == Done(ok, true)
    case _ => false
  }

  /** Every call of the file system may fail, and changes no file then. */
  lemma AnyCallMayFail(w: World, s: State, i: nat, pc': Pc)
    requires i in w.jobs && i in s.pcs && Fails(s.pcs[i], pc')
    ensures Next(w, s, s.(pcs := s.pcs[i := pc']))
  {
    var s' := s.(pcs := s.pcs[i := pc']);
    if s.pcs[i].Reserved? {
      assert Create(w, s, s', i, 0);
    } else if s.pcs[i].Writing? {
      assert Write(w, s, s', i, 0);
    }
    assert Step(w, s, s', i);
  }

  /** Another program may create any file that does not exist, with any content, at any time. */
  lemma OthersMayCreate(w: World, s: State, path: Path, bytes: Bytes)
    requires path !in s.fs
    ensures exists s' ::
      && Next(w, s, s') && s'.pcs == s.pcs && s'.fs.Keys == s.fs.Keys + {path}
      && s'.fs[path] in s'.data && s'.data[s'.fs[path]] == bytes
  {
    var inode := FreshNumber(s.origin.Keys);
    var s' := s.(fs := s.fs[path := inode], data := s.data[inode := bytes], origin := s.origin[inode := Outside]);
    assert OutsideCreates(s, s', path, inode, bytes);
    assert Next(w, s, s');
  }
}
