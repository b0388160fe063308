/** The lock file protocol (dotlock.c) as steps of any number of processes on one directory. */
module DotLock {
  type Pid = nat

  type Inode = nat

  /** The lock file, or a process's own file. */
  datatype Name = LockName | Temp(id: nat)

  /** Where a process is: Linking is after the open loop of create_exclusive, Stating after link
      reported success, Unlinking after stat gave a link count; Cleaning is the label bad. */
  datatype Pc = Idle | Opening(tries: nat) | Linking | Stating | Unlinking(nlink: nat) | Cleaning | Holding

  /** ino is the file that the process made in this attempt, if it made one. */
  datatype Process = Process(pc: Pc, temp: Name, ino: Inode)

  datatype World = World(procs: map<Pid, Process>, dir: map<Name, Inode>, next: Inode)

  /** The names of a file; their number is its link count. */
  function Names(dir: map<Name, Inode>, i: Inode): set<Name> {
    set n | n in dir && dir[n] == i
  }

  function Unlink(dir: map<Name, Inode>, n: Name): map<Name, Inode> {
    dir - {n}
  }

  const TRIES := 5

  // ---------------------------------------------------------------- steps

  predicate Starts(w: World, w': World, p: Pid, unique: bool)
    requires p in w.procs && w.procs[p].pc == Idle
  {
    && p in w'.procs
    && var q := w'.procs[p];
       && w' == w.(procs := w.procs[p := q]) && q.pc == Opening(0) && q.temp.Temp?
       && (unique ==>
             && q.temp !in w.dir
             && forall o | o in w.procs && o != p :: w.procs[o].pc != Idle ==> w.procs[o].temp != q.temp)
  }

  /** open with O_CREAT and O_EXCL; after TRIES collisions the code goes on as if it had succeeded. */
  predicate Opens(w: World, w': World, p: Pid)
    requires p in w.procs && w.procs[p].pc.Opening?
  {
    var q := w.procs[p];
    if q.temp in w.dir then
      w' == Moved(w, p, if q.pc.tries + 1 < TRIES then Opening(q.pc.tries + 1) else Linking)
    else
      || w' == Moved(w, p, Idle)
      || w' == World(w.procs[p := Process(Linking, q.temp, w.next)], w.dir[q.temp := w.next], w.next + 1)
  }

  function Moved(w: World, p: Pid, pc: Pc): World
    requires p in w.procs
  {
    w.(procs := w.procs[p := w.procs[p].(pc := pc)])
  }

  predicate CanLink(w: World, p: Pid)
    requires p in w.procs
  {
    w.procs[p].temp in w.dir && LockName !in w.dir
  }

  function Linked(w: World, p: Pid): World
    requires p in w.procs && CanLink(w, p)
  {
    w.(dir := w.dir[LockName := w.dir[w.procs[p].temp]])
  }

  /** link; where it lies it may report success without an effect, or failure after one. */
  predicate Links(w: World, w': World, p: Pid, lies: bool)
    requires p in w.procs && w.procs[p].pc == Linking
  {
    || w' == Moved(w, p, Cleaning)
    || (CanLink(w, p) && w' == Moved(Linked(w, p), p, Stating))
    || (lies && w' == Moved(w, p, Stating))
    || (lies && CanLink(w, p) && w' == Moved(Linked(w, p), p, Cleaning))
  }

  predicate Stats(w: World, w': World, p: Pid)
    requires p in w.procs && w.procs[p].pc == Stating
  {
    || w' == Moved(w, p, Cleaning)
    || (w.procs[p].temp in w.dir && w' == Moved(w, p, Unlinking(|Names(w.dir, w.dir[w.procs[p].temp])|)))
  }

  /** The own file is unlinked; two links mean that the lock is won. */
  predicate Unlinks(w: World, w': World, p: Pid)
    requires p in w.procs && w.procs[p].pc.Unlinking?
  {
    w' == Moved(w.(dir := Unlink(w.dir, w.procs[p].temp)), p, if w.procs[p].pc.nlink == 2 then Holding else Idle)
  }

  predicate Cleans(w: World, w': World, p: Pid)
    requires p in w.procs && w.procs[p].pc == Cleaning
  {
    w' == Moved(w.(dir := Unlink(w.dir, w.procs[p].temp)), p, Idle)
  }

  /** dot_unlock */
  predicate Unlocks(w: World, w': World, p: Pid)
    requires p in w.procs && w.procs[p].pc == Holding
  {
    w' == Moved(w.(dir := Unlink(w.dir, LockName)), p, Idle)
  }

  /** A step of process p; with unique set, its own file has a name that no other uses. */
  predicate Step(w: World, w': World, p: Pid, lies: bool, unique: bool) {
    && p in w.procs
    && match w.procs[p].pc
       case Idle => Starts(w, w', p, unique)
       case Opening(_) => Opens(w, w', p)
       case Linking => Links(w, w', p, lies)
       case Stating => Stats(w, w', p)
       case Unlinking(_) => Unlinks(w, w', p)
       case Cleaning => Cleans(w, w', p)
       case Holding => Unlocks(w, w', p)
  }

  predicate Init(w: World) {
    && (forall p | p in w.procs :: w.procs[p].pc == Idle)
    && (forall n | n in w.dir :: w.dir[n] < w.next)
  }

  ghost predicate Moves(w: World, w': World, lies: bool, unique: bool) {
    exists p :: Step(w, w', p, lies, unique)
  }

  /** A run, under any interleaving. */
  ghost predicate Run(ws: seq<World>, lies: bool, unique: bool) {
    && ws != [] && Init(ws[0])
    && forall k | 0 <= k < |ws| - 1 :: Moves(ws[k], ws[k + 1], lies, unique)
  }

  predicate Holds(w: World, p: Pid) {
    p in w.procs && w.procs[p].pc == Holding
  }

  ghost predicate Exclusive(w: World) {
    forall p, q :: Holds(w, p) && Holds(w, q) ==> p == q
  }

  // ---------------------------------------------------------------- a link that tells the truth

  /** The process has made the lock file and not given it up. */
  predicate Claims(w: World, p: Pid) {
    p in w.procs && (w.procs[p].pc == Stating || w.procs[p].pc.Unlinking? || w.procs[p].pc == Holding)
  }

  ghost predicate TrueLinkInv(w: World) {
    && (forall p | p in w.procs && w.procs[p].pc != Idle :: w.procs[p].temp != LockName)
    && (forall p | Claims(w, p) :: LockName in w.dir)
    && forall p, q :: Claims(w, p) && Claims(w, q) ==> p == q
  }

  lemma TrueLinkStep(w: World, w': World, p: Pid, unique: bool)
    requires TrueLinkInv(w) && Step(w, w', p, false, unique)
    ensures TrueLinkInv(w')
  {
    forall o | o in w'.procs && o != p ensures o in w.procs && w.procs[o] == w'.procs[o] {
    }
    var had := w.procs[p];
    if w'.procs[p].pc == Stating {
      assert LockName !in w.dir;
    }
    forall o | Claims(w', o)
      ensures LockName in w'.dir && (o != p ==> Claims(w, o)) && (o == p && had.pc != Linking ==> Claims(w, p))
    {
      if o != p {
        assert Claims(w, o);
        if had.pc == Holding {
          assert Claims(w, p);
          assert false;
        }
      } else if had.pc != Linking {
        assert Claims(w, p);
      }
    }
  }

  /** When link tells the truth there is never a second holder, even if processes share the names
      of their own files. */
  lemma {:induction false} TrueLinkExcludes(ws: seq<World>, unique: bool, k: nat)
    requires Run(ws, false, unique) && k < |ws|
    ensures TrueLinkInv(ws[k]) && Exclusive(ws[k])
  {
    if k > 0 {
      TrueLinkExcludes(ws, unique, k - 1);
      assert Moves(ws[k - 1], ws[k - 1 + 1], false, unique);
      var p :| Step(ws[k - 1], ws[k], p, false, unique);
      TrueLinkStep(ws[k - 1], ws[k], p, unique);
    }
    assert forall p :: Holds(ws[k], p) ==> Claims(ws[k], p);
  }

  // ---------------------------------------------------------------- unique names

  /** The process has a file of its own in the directory. */
  predicate Busy(pc: Pc) {
    pc == Linking || pc == Stating || pc.Unlinking? || pc == Cleaning
  }

  predicate Won(pc: Pc) {
    pc == Unlinking(2) || pc == Holding
  }

  ghost predicate Owned(w: World, p: Pid)
    requires p in w.procs
  {
    var q := w.procs[p];
    && (q.pc != Idle ==> q.temp.Temp?)
    && (q.pc.Opening? ==> q.temp !in w.dir)
    && (Busy(q.pc) ==> q.temp in w.dir && w.dir[q.temp] == q.ino)
    && (Busy(q.pc) || q.pc == Holding ==> q.ino < w.next && Names(w.dir, q.ino) <= {q.temp, LockName})
    && (Won(q.pc) ==> LockName in w.dir && w.dir[LockName] == q.ino)
  }

  ghost predicate Apart(w: World, p: Pid, q: Pid)
    requires p in w.procs && q in w.procs
  {
    var a, b := w.procs[p], w.procs[q];
    && (a.pc != Idle && b.pc != Idle ==> a.temp != b.temp)
    && ((Busy(a.pc) || a.pc == Holding) && (Busy(b.pc) || b.pc == Holding) ==> a.ino != b.ino)
  }

  ghost predicate UniqueInv(w: World) {
    && (forall n | n in w.dir :: w.dir[n] < w.next)
    && (forall p | p in w.procs :: Owned(w, p))
    && forall p, q | p in w.procs && q in w.procs && p != q :: Apart(w, p, q)
  }

  /** Two links on a file that only its maker's name and the lock name can refer to: the lock name
      is one of them. */
  lemma TwoLinks(dir: map<Name, Inode>, i: Inode, temp: Name)
    requires Names(dir, i) <= {temp, LockName} && |Names(dir, i)| == 2
    ensures LockName in dir && dir[LockName] == i
  {
    if LockName !in Names(dir, i) {
      assert Names(dir, i) <= {temp};
      SubsetSize(Names(dir, i), temp);
    }
  }

  lemma SubsetSize(s: set<Name>, n: Name)
    requires s <= {n}
    ensures |s| <= 1
  {
    if n in s {
      assert s == {n};
    } else {
      assert s == {};
    }
  }

  lemma UniqueStep(w: World, w': World, p: Pid, lies: bool)
    requires UniqueInv(w) && Step(w, w', p, lies, true)
    ensures UniqueInv(w')
  {
    hide Step, Owned, Apart;
    OthersStay(w, w', p, lies, true);
    UniqueStepSelf(w, w', p, lies);
    forall o | o in w.procs && o != p ensures Owned(w', o) && Apart(w', p, o) && Apart(w', o, p) {
      OtherOwned(w, w', p, o, lies);
      StillApart(w, w', p, o, lies);
    }
    forall a, b | a in w'.procs && b in w'.procs && a != b && a != p && b != p ensures Apart(w', a, b) {
      assert Apart(w, a, b);
      SameApart(w, w', a, b);
    }
  }

  /** A step changes no other process. */
  lemma OthersStay(w: World, w': World, p: Pid, lies: bool, unique: bool)
    requires Step(w, w', p, lies, unique)
    ensures p in w.procs && w'.procs.Keys == w.procs.Keys
    ensures forall o | o in w.procs && o != p :: w'.procs[o] == w.procs[o]
  {
  }

  lemma SameApart(w: World, w': World, a: Pid, b: Pid)
    requires a in w.procs && b in w.procs && Apart(w, a, b)
    requires a in w'.procs && b in w'.procs && w'.procs[a] == w.procs[a] && w'.procs[b] == w.procs[b]
    ensures Apart(w', a, b)
  {
  }

  lemma UniqueStepSelf(w: World, w': World, p: Pid, lies: bool)
    requires UniqueInv(w) && Step(w, w', p, lies, true)
    ensures Owned(w', p)
    ensures forall n | n in w'.dir :: w'.dir[n] < w'.next
  {
    assert Owned(w, p);
    var q := w.procs[p];
    if q.pc == Stating && q.temp in w.dir && |Names(w.dir, q.ino)| == 2 {
      TwoLinks(w.dir, q.ino, q.temp);
    }
  }

  lemma OtherOwned(w: World, w': World, p: Pid, o: Pid, lies: bool)
    requires UniqueInv(w) && Step(w, w', p, lies, true) && o in w.procs && o != p
    ensures o in w'.procs && Owned(w', o)
  {
    OthersStay(w, w', p, lies, true);
    assert Owned(w, p) && Owned(w, o) && Apart(w, p, o) && Apart(w, o, p);
  }

  lemma StillApart(w: World, w': World, p: Pid, o: Pid, lies: bool)
    requires UniqueInv(w) && Step(w, w', p, lies, true) && o in w.procs && o != p
    ensures p in w'.procs && o in w'.procs && Apart(w', p, o) && Apart(w', o, p)
  {
    hide Names;
    assert Owned(w, p) && Owned(w, o) && Apart(w, p, o) && Apart(w, o, p);
  }

  /** With names that no two processes share there is never a second holder, whatever link
      reports. */
  lemma {:induction false} UniqueNamesExclude(ws: seq<World>, lies: bool, k: nat)
    requires Run(ws, lies, true) && k < |ws|
    ensures UniqueInv(ws[k]) && Exclusive(ws[k])
  {
    if k > 0 {
      UniqueNamesExclude(ws, lies, k - 1);
      assert Moves(ws[k - 1], ws[k - 1 + 1], lies, true);
      var p :| Step(ws[k - 1], ws[k], p, lies, true);
      UniqueStep(ws[k - 1], ws[k], p, lies);
    }
    var w := ws[k];
    forall p, q | Holds(w, p) && Holds(w, q) ensures p == q {
      assert Owned(w, p) && Owned(w, q);
      assert p != q ==> Apart(w, p, q);
    }
  }

  /** The holder's file is the lock file. */
  lemma HolderOwnsLock(ws: seq<World>, lies: bool, k: nat, p: Pid)
    requires Run(ws, lies, true) && k < |ws| && Holds(ws[k], p)
    ensures LockName in ws[k].dir && ws[k].dir[LockName] == ws[k].procs[p].ino
  {
    UniqueNamesExclude(ws, lies, k);
    assert Owned(ws[k], p);
  }

  // ---------------------------------------------------------------- neither

  function Two(a: Pc, b: Pc, dir: map<Name, Inode>, i: Inode): World {
    World(map[0 := Process(a, Temp(7), 0), 1 := Process(b, Temp(7), 0)], dir, i)
  }

  /** A world that some run ends in. */
  ghost predicate Reached(w: World, lies: bool, unique: bool) {
    exists ws: seq<World> :: Run(ws, lies, unique) && ws[|ws| - 1] == w
  }

  lemma Extend(w: World, w': World, p: Pid, lies: bool, unique: bool)
    requires Reached(w, lies, unique) && Step(w, w', p, lies, unique)
    ensures Reached(w', lies, unique)
  {
    hide Step;
    var ws: seq<World> :| Run(ws, lies, unique) && ws[|ws| - 1] == w;
    var us := ws + [w'];
    forall k | 0 <= k < |us| - 1 ensures Moves(us[k], us[k + 1], lies, unique) {
      if k < |ws| - 1 {
        assert Moves(ws[k], ws[k + 1], lies, unique);
      } else {
        assert us[k] == w && us[k + 1] == w';
      }
    }
    assert Run(us, lies, unique);
  }

  lemma ReachedAtOnce(w: World, lies: bool, unique: bool)
    requires Init(w)
    ensures Reached(w, lies, unique)
  {
    assert Run([w], lies, unique);
  }

  const Seven := map[Temp(7) := 0]

  /** The second process collides with the file of the first, five times. */
  lemma SecondGoesOn()
    ensures Reached(Two(Linking, Linking, Seven, 1), true, false)
  {
    var w := Two(Idle, Idle, map[], 0);
    ReachedAtOnce(w, true, false);
    Extend(w, Two(Opening(0), Idle, map[], 0), 0, true, false);
    Extend(Two(Opening(0), Idle, map[], 0), Two(Linking, Idle, Seven, 1), 0, true, false);
    Extend(Two(Linking, Idle, Seven, 1), Two(Linking, Opening(0), Seven, 1), 1, true, false);
    Collide(0);
    Collide(1);
    Collide(2);
    Collide(3);
    Collide(4);
  }

  lemma Collide(n: nat)
    requires n < TRIES && Reached(Two(Linking, Opening(n), Seven, 1), true, false)
    ensures Reached(Two(Linking, if n + 1 < TRIES then Opening(n + 1) else Linking, Seven, 1), true, false)
  {
    Extend(Two(Linking, Opening(n), Seven, 1),
           Two(Linking, if n + 1 < TRIES then Opening(n + 1) else Linking, Seven, 1), 1, true, false);
  }

  /** The first process makes the lock; the second is told that it did. */
  lemma BothGoOn()
    ensures Reached(Two(Stating, Stating, Seven[LockName := 0], 1), true, false)
  {
    SecondGoesOn();
    var both := Seven[LockName := 0];
    Extend(Two(Linking, Linking, Seven, 1), Two(Stating, Linking, both, 1), 0, true, false);
    Extend(Two(Stating, Linking, both, 1), Two(Stating, Stating, both, 1), 1, true, false);
  }

  /** Both see two links. */
  lemma BothSeeTwoLinks()
    ensures Reached(Two(Unlinking(2), Unlinking(2), Seven[LockName := 0], 1), true, false)
  {
    BothGoOn();
    var both := Seven[LockName := 0];
    assert Names(both, 0) == {Temp(7), LockName};
    Extend(Two(Stating, Stating, both, 1), Two(Unlinking(2), Stating, both, 1), 0, true, false);
    Extend(Two(Unlinking(2), Stating, both, 1), Two(Unlinking(2), Unlinking(2), both, 1), 1, true, false);
  }

  /** With a link that lies and a shared name two processes come to hold the lock: the second one
      gives up opening after five collisions, but goes on. */
  lemma SharedNameAndLie()
    ensures exists w :: Reached(w, true, false) && !Exclusive(w)
  {
    BothSeeTwoLinks();
    var both, last := Seven[LockName := 0], map[LockName := 0];
    assert Unlink(both, Temp(7)) == last && Unlink(last, Temp(7)) == last;
    Extend(Two(Unlinking(2), Unlinking(2), both, 1), Two(Holding, Unlinking(2), last, 1), 0, true, false);
    Extend(Two(Holding, Unlinking(2), last, 1), Two(Holding, Holding, last, 1), 1, true, false);
    var w := Two(Holding, Holding, last, 1);
    assert Holds(w, 0) && Holds(w, 1);
  }

  /** Exactly when the lock is safe: link tells the truth, or the names are never shared. */
  lemma SafeExactly(lies: bool, unique: bool)
    ensures (forall w :: Reached(w, lies, unique) ==> Exclusive(w)) <==> !lies || unique
  {
    if lies && !unique {
      SharedNameAndLie();
    } else {
      forall w | Reached(w, lies, unique) ensures Exclusive(w) {
        var ws: seq<World> :| Run(ws, lies, unique) && ws[|ws| - 1] == w;
        if unique {
          UniqueNamesExclude(ws, lies, |ws| - 1);
        } else {
          TrueLinkExcludes(ws, unique, |ws| - 1);
        }
      }
    }
  }

  function One(pc: Pc, name: Name, dir: map<Name, Inode>, i: Inode): World {
    World(map[0 := Process(pc, name, 0)], dir, i)
  }

  /** A process on its own finds two links on its file. */
  lemma AloneWins(temp: nat)
    ensures var name := Temp(temp); Reached(One(Unlinking(2), name, map[name := 0, LockName := 0], 1), false, true)
  {
    var name := Temp(temp);
    var t, both := map[name := 0], map[name := 0, LockName := 0];
    assert Names(both, 0) == {name, LockName};
    ReachedAtOnce(One(Idle, name, map[], 0), false, true);
    Extend(One(Idle, name, map[], 0), One(Opening(0), name, map[], 0), 0, false, true);
    Extend(One(Opening(0), name, map[], 0), One(Linking, name, t, 1), 0, false, true);
    Extend(One(Linking, name, t, 1), One(Stating, name, both, 1), 0, false, true);
    Extend(One(Stating, name, both, 1), One(Unlinking(2), name, both, 1), 0, false, true);
  }

  /** It can get a free lock, and leaves no file behind when it gives it back. */
  lemma AloneGetsLock(temp: nat)
    ensures var name := Temp(temp);
            && Reached(One(Holding, name, map[LockName := 0], 1), false, true)
            && Reached(One(Idle, name, map[], 1), false, true)
  {
    var name := Temp(temp);
    var both, last := map[name := 0, LockName := 0], map[LockName := 0];
    AloneWins(temp);
    assert Unlink(both, name) == last && Unlink(last, LockName) == map[];
    Extend(One(Unlinking(2), name, both, 1), One(Holding, name, last, 1), 0, false, true);
    Extend(One(Holding, name, last, 1), One(Idle, name, map[], 1), 0, false, true);
  }
}
