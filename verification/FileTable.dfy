/** DOS file descriptors: the slots of the contexts, and the reference counts of the files in them. */
module FileTable {

  /** A file is known by its address; 0 is no file. */
  type File = nat

  const NULL: File := 0
  const NFILES := 96

  /** What the host's open call did. */
  datatype Host = Opened | NotPermitted | Refused

  // ----- counting -----

  /** The reference count of a file; a file that is gone has none. */
  function Count(files: map<File, int>, f: File): int {
    if f in files then files[f] else 0
  }

  predicate Live(files: map<File, int>) {
    NULL !in files && forall f :: f in files ==> files[f] > 0
  }

  /** The counts change exactly as the slots do. */
  ghost predicate Conserves(files: map<File, int>, slots: multiset<File>, files': map<File, int>, slots': multiset<File>) {
    forall f: File :: f != NULL ==> Count(files', f) - slots'[f] == Count(files, f) - slots[f]
  }

  /** Every file in a slot has at least as many references as there are slots with it. */
  ghost predicate Holds(files: map<File, int>, slots: multiset<File>) {
    forall f: File :: f != NULL ==> slots[f] <= Count(files, f)
  }

  lemma Stored(s: seq<File>, i: nat, f: File, g: File)
    requires i < |s|
    ensures multiset(s[i := f])[g] == multiset(s)[g] - (if g == s[i] then 1 else 0) + (if g == f then 1 else 0)
  {
    assert s == s[..i] + [s[i]] + s[i + 1..];
    assert s[i := f] == s[..i] + [f] + s[i + 1..];
  }

  /** The references after one is taken. */
  function Taken(files: map<File, int>, f: File): map<File, int> {
    if f == NULL then files else files[f := Count(files, f) + 1]
  }

  lemma TakenAgain(files: map<File, int>, f: File, n: int)
    requires f != NULL
    ensures f in files[f := n] && Taken(files[f := n], f) == files[f := n + 1]
  {
  }

  /** The references after one is dropped; a file without references is gone. */
  function Dropped(files: map<File, int>, f: File): map<File, int> {
    if f == NULL then files else if Count(files, f) == 1 then files - {f} else files[f := Count(files, f) - 1]
  }

  /** One reference more changes one count by one, and one less removes a file with a single one. */
  lemma OneReference(files: map<File, int>, f: File)
    requires f in files && f != 0 && Live(files)
    ensures
      var t := Taken(files, f);
      t.Keys == files.Keys && t[f] == files[f] + 1 && forall g :: g in files && g != f ==> t[g] == files[g]
    ensures
      var d := Dropped(files, f);
      && (forall g :: g in d <==> g in files && !(g == f && files[f] == 1))
      && (f in d ==> d[f] == files[f] - 1) && forall g :: g in d && g != f ==> d[g] == files[g]
    ensures Taken(files, 0) == files && Dropped(files, 0) == files
  {
  }

  /** A slot that is filled takes a reference, a slot that is cleared drops one. */
  lemma StoredConserves(files: map<File, int>, s: seq<File>, i: nat, f: File, other: multiset<File>)
    requires i < |s| && Holds(files, multiset(s) + other) && Live(files)
    ensures s[i] == NULL ==>
      Conserves(files, multiset(s) + other, Taken(files, f), multiset(s[i := f]) + other) && Holds(Taken(files, f), multiset(s[i := f]) + other)
    ensures f == NULL ==>
      Conserves(files, multiset(s) + other, Dropped(files, s[i]), multiset(s[i := f]) + other) && Holds(Dropped(files, s[i]), multiset(s[i := f]) + other)
  {
    forall g: File | g != NULL
      ensures (multiset(s[i := f]) + other)[g] == (multiset(s) + other)[g] - (if g == s[i] then 1 else 0) + (if g == f then 1 else 0)
      ensures (multiset(s) + other)[g] <= Count(files, g)
    {
      Stored(s, i, f, g);
    }
    assert s[i] in multiset(s);
    assert s[i] != NULL ==> (multiset(s) + other)[s[i]] <= Count(files, s[i]);
  }

  /** A file opened for ten slots that were free. */
  lemma ConsoleConserves(files: map<File, int>, s: seq<File>, std: seq<File>, f: File)
    requires Live(files) && f != NULL && f !in files && std == [f, f, f, f, f] && |s| == NFILES
    requires s[..5] == [f, f, f, f, f] && forall i :: 5 <= i < |s| ==> s[i] == NULL
    ensures Conserves(files, multiset{}, files[f := 10], multiset(s) + multiset(std))
    ensures Holds(files[f := 10], multiset(s) + multiset(std))
  {
    assert s == [f, f, f, f, f] + s[5..];
    forall g: File | g != NULL
      ensures multiset(s[5..])[g] == 0
    {
      assert g !in s[5..];
    }
  }

  // ----- the file system -----

  class FileSystem {
    var files: map<File, int>

    constructor ()
      ensures files == map[]
    {
      files := map[];
    }

    /** Drops a reference; the last one deletes the file. */
    method Unref(f: File)
      requires Live(files) && (f != NULL ==> f in files)
      modifies this
      ensures Live(files)
      ensures files == Dropped(old(files), f)
    {
      if f == NULL {
        return;
      }
      files := files[f := files[f] - 1];
      if files[f] == 0 {
        files := files - {f};
      }
    }

    method Ref(f: File) returns (r: File)
      requires Live(files) && (f != NULL ==> f in files)
      modifies this
      ensures Live(files) && r == f
      ensures files == Taken(old(files), f)
    {
      if f == NULL {
        return NULL;
      }
      files := files[f := files[f] + 1];
      r := f;
    }

    /** Enters a new file object, at an address no live file has. */
    method Insert(f: File)
      requires Live(files) && f != NULL && f !in files
      modifies this
      ensures files == old(files)[f := 1] && Live(files)
    {
      files := files[f := 1];
    }

    /** Opens the file `name`, which may be the console; `f` is where its object would be. */
    method Open(console: bool, mode: bv16, host: Host, f: File) returns (code: int)
      requires Live(files) && f != NULL && f !in files
      modifies this
      ensures Live(files) && code in {0, -2, -12, -19}
      ensures code == 0 <==> (mode & 0xf) <= 2 && (console || host == Opened)
      ensures code == -12 <==> (mode & 0xf) > 2
      ensures code == -19 <==> (mode & 0xf) <= 2 && !console && host == NotPermitted
      ensures code == -2 <==> (mode & 0xf) <= 2 && !console && host == Refused
      ensures files == if code == 0 then old(files)[f := 1] else old(files)
    {
      if (mode & 0xf) > 2 {
        return -12;
      }
      if console {
        Insert(f);
      } else {
        match host
        case NotPermitted => return -19;
        case Refused => return -2;
        case Opened => Insert(f);
      }
      code := 0;
    }

    method Create(host: Host, f: File) returns (code: int)
      requires Live(files) && f != NULL && f !in files
      modifies this
      ensures Live(files) && code in {0, -2, -19}
      ensures code == 0 <==> host == Opened
      ensures code == -19 <==> host == NotPermitted
      ensures code == -2 <==> host == Refused
      ensures files == if code == 0 then old(files)[f := 1] else old(files)
    {
      match host
      case NotPermitted => return -19;
      case Refused => return -2;
      case Opened => Insert(f);
      code := 0;
    }
  }

  // ----- a context -----

  class Context {
    const fs: FileSystem
    const stdFiles: array<File>
    const files: array<File>

    /** All slots of this context. */
    ghost function Slots(): multiset<File>
      reads files, stdFiles
    {
      multiset(files[..]) + multiset(stdFiles[..])
    }

    ghost predicate Valid()
      reads this, fs, files, stdFiles
    {
      && files.Length == NFILES && stdFiles.Length == 5
      && Live(fs.files) && Holds(fs.files, Slots())
    }

    /** A new context has the console, opened once, in all standard slots; `f` is where its object is. */
    constructor (fs: FileSystem, f: File)
      requires Live(fs.files) && f != NULL && f !in fs.files
      modifies fs
      ensures this.fs == fs && fresh(files) && fresh(stdFiles) && Valid() && files.Length == 96 && stdFiles.Length == 5
      ensures stdFiles[..] == [f, f, f, f, f] && files[..5] == [f, f, f, f, f] && forall i :: 5 <= i < NFILES ==> files[i] == NULL
      ensures Conserves(old(fs.files), multiset{}, fs.files, Slots())
    {
      this.fs := fs;
      stdFiles := new File[5];
      files := new File[NFILES](_ => NULL);
      new;
      hide Live, Conserves, Holds;
      ghost var before := fs.files;
      OpenConsole(f);
      ShareStandard(f, before);
      ConsoleConserves(before, files[..], stdFiles[..], f);
    }

    method OpenConsole(f: File)
      requires Live(fs.files) && f != NULL && f !in fs.files && stdFiles.Length == 5
      modifies fs, stdFiles
      ensures Live(fs.files) && (forall i :: 0 <= i < 5 ==> stdFiles[i] == f) && fs.files == old(fs.files)[f := 5]
    {
      hide Live, Taken;
      ghost var before := fs.files;
      var code := fs.Open(true, 2, Opened, f);
      stdFiles[0] := f;
      TakenAgain(before, f, 1);
      stdFiles[1] := fs.Ref(stdFiles[0]);
      TakenAgain(before, f, 2);
      stdFiles[2] := fs.Ref(stdFiles[0]);
      TakenAgain(before, f, 3);
      stdFiles[3] := fs.Ref(stdFiles[2]);
      TakenAgain(before, f, 4);
      stdFiles[4] := fs.Ref(stdFiles[2]);
    }

    method ShareStandard(f: File, ghost before: map<File, int>)
      requires Live(fs.files) && f != NULL && fs.files == before[f := 5]
      requires stdFiles.Length == 5 && forall i :: 0 <= i < 5 ==> stdFiles[i] == f
      requires files.Length == NFILES && stdFiles != files && forall i :: 0 <= i < NFILES ==> files[i] == NULL
      modifies fs, files
      ensures Live(fs.files) && fs.files == before[f := 10]
      ensures files[..5] == [f, f, f, f, f] && forall i :: 5 <= i < NFILES ==> files[i] == NULL
    {
      hide Live, Taken, Count;
      TakenAgain(before, f, 5);
      files[0] := fs.Ref(stdFiles[0]);
      TakenAgain(before, f, 6);
      files[1] := fs.Ref(stdFiles[1]);
      TakenAgain(before, f, 7);
      files[2] := fs.Ref(stdFiles[2]);
      TakenAgain(before, f, 8);
      files[3] := fs.Ref(stdFiles[3]);
      TakenAgain(before, f, 9);
      files[4] := fs.Ref(stdFiles[4]);
    }

    /** The lowest free descriptor, or NFILES. */
    method FindFree() returns (i: nat)
      requires files.Length == NFILES
      ensures i <= NFILES && (i < NFILES ==> files[i] == NULL)
      ensures forall j :: 0 <= j < i ==> files[j] != NULL
    {
      i := 0;
      while i < NFILES && files[i] != NULL
        invariant i <= NFILES && forall j :: 0 <= j < i ==> files[j] != NULL
      {
        i := i + 1;
      }
    }

    lemma SlotIsLive(i: nat)
      requires Valid() && i < NFILES
      ensures files[i] != NULL ==> files[i] in fs.files
    {
      assert files[i] in multiset(files[..]);
      assert files[i] != NULL ==> Slots()[files[i]] <= Count(fs.files, files[i]);
    }

    method Close(fd: nat) returns (code: int)
      requires Valid()
      modifies fs, files
      ensures Valid() && Conserves(old(fs.files), old(Slots()), fs.files, Slots())
      ensures if fd < NFILES && old(files[fd]) != NULL
              then code == 0 && files[..] == old(files[..])[fd := NULL]
              else code == -6 && files[..] == old(files[..]) && fs.files == old(fs.files)
    {
      if fd >= NFILES || files[fd] == NULL {
        return -6;
      }
      SlotIsLive(fd);
      hide Live, Conserves, Holds, Dropped;
      ghost var s := files[..];
      StoredConserves(fs.files, s, fd, NULL, multiset(stdFiles[..]));
      fs.Unref(files[fd]);
      files[fd] := NULL;
      assert files[..] == s[fd := NULL];
      code := 0;
    }

    /** Stores into a free slot a file that has just got a reference for it. */
    method Fill(i: nat, f: File, ghost before: map<File, int>)
      requires i < files.Length == NFILES && stdFiles.Length == 5 && files[i] == NULL && f != NULL
      requires Live(fs.files) && Holds(before, Slots())
      requires fs.files == Taken(before, f) && Live(before)
      modifies files
      ensures Valid() && Conserves(before, old(Slots()), fs.files, Slots())
      ensures files[..] == old(files[..])[i := f]
    {
      hide Live, Conserves, Holds, Taken;
      ghost var s := files[..];
      StoredConserves(before, s, i, f, multiset(stdFiles[..]));
      files[i] := f;
      assert files[..] == s[i := f];
    }

    /** Makes a second descriptor for an open file. */
    method Dup(fd: nat) returns (code: int)
      requires Valid()
      modifies fs, files
      ensures Valid() && Conserves(old(fs.files), old(Slots()), fs.files, Slots())
      ensures code < 0 ==> files[..] == old(files[..]) && fs.files == old(fs.files)
      ensures code == -6 <==> fd >= NFILES || old(files[fd]) == NULL
      ensures code == -4 ==> forall i :: 0 <= i < NFILES ==> files[i] != NULL
      ensures code != -6 && code != -4 ==>
        && 0 <= code < NFILES && old(files[code]) == NULL && (forall i :: 0 <= i < code ==> old(files[i]) != NULL)
        && files[..] == old(files[..])[code := old(files[fd])]
    {
      if fd >= NFILES || files[fd] == NULL {
        return -6;
      }
      var found := FindFree();
      if found == NFILES {
        return -4;
      }
      SlotIsLive(fd);
      ghost var before := fs.files;
      var f := fs.Ref(files[fd]);
      Fill(found, f, before);
      code := found;
    }

    /** Opens a file into the lowest free descriptor; a failure changes nothing. */
    method Open(console: bool, mode: bv16, host: Host, f: File) returns (code: int)
      requires Valid() && f != NULL && f !in fs.files
      modifies fs, files
      ensures Valid() && Conserves(old(fs.files), old(Slots()), fs.files, Slots())
      ensures code < 0 ==> files[..] == old(files[..]) && fs.files == old(fs.files)
      ensures code == -4 <==> forall i :: 0 <= i < NFILES ==> old(files[i]) != NULL
      ensures code >= 0 ==>
        && code < NFILES && old(files[code]) == NULL && (forall i :: 0 <= i < code ==> old(files[i]) != NULL)
        && files[..] == old(files[..])[code := f] && fs.files == old(fs.files)[f := 1]
      ensures code != -4 ==> (code >= 0 <==> (mode & 0xf) <= 2 && (console || host == Opened))
      ensures code != -4 && (mode & 0xf) > 2 ==> code == -12
      ensures code != -4 && (mode & 0xf) <= 2 && !console && host == NotPermitted ==> code == -19
      ensures code != -4 && (mode & 0xf) <= 2 && !console && host == Refused ==> code == -2
    {
      var found := FindFree();
      if found == NFILES {
        return -4;
      }
      ghost var before := fs.files;
      var err := fs.Open(console, mode, host, f);
      if err < 0 {
        return err;
      }
      Fill(found, f, before);
      code := found;
    }

    method Create(host: Host, f: File) returns (code: int)
      requires Valid() && f != NULL && f !in fs.files
      modifies fs, files
      ensures Valid() && Conserves(old(fs.files), old(Slots()), fs.files, Slots())
      ensures code < 0 ==> files[..] == old(files[..]) && fs.files == old(fs.files)
      ensures code == -4 <==> forall i :: 0 <= i < NFILES ==> old(files[i]) != NULL
      ensures code >= 0 ==>
        && code < NFILES && old(files[code]) == NULL && (forall i :: 0 <= i < code ==> old(files[i]) != NULL)
        && files[..] == old(files[..])[code := f] && fs.files == old(fs.files)[f := 1]
      ensures code != -4 ==> (code >= 0 <==> host == Opened)
      ensures code != -4 && host == NotPermitted ==> code == -19
      ensures code != -4 && host == Refused ==> code == -2
    {
      var found := FindFree();
      if found == NFILES {
        return -4;
      }
      ghost var before := fs.files;
      var err := fs.Create(host, f);
      if err < 0 {
        return err;
      }
      Fill(found, f, before);
      code := found;
    }

    /** The end of a context: every slot's reference is dropped. */
    method Destroy()
      requires Valid()
      modifies fs
      ensures Live(fs.files) && Conserves(old(fs.files), Slots(), fs.files, multiset{})
    {
      UnrefAll(files[..], multiset(stdFiles[..]));
      UnrefAll(stdFiles[..], multiset{});
    }

    /** Drops a reference for each of the slots `s`, from the last to the first; `rest` is what other
        slots hold. */
    method UnrefAll(s: seq<File>, ghost rest: multiset<File>)
      requires Live(fs.files) && Holds(fs.files, multiset(s) + rest)
      modifies fs
      ensures Live(fs.files) && Holds(fs.files, rest)
      ensures Conserves(old(fs.files), multiset(s), fs.files, multiset{})
    {
      hide Live, Holds, Conserves, Dropped;
      ghost var before := fs.files;
      var i := |s|;
      assert s[..i] == s;
      ConservesItself(before, multiset(s));
      while i != 0
        invariant 0 <= i <= |s| && Live(fs.files)
        invariant Conserves(before, multiset(s), fs.files, multiset(s[..i]))
      {
        i := i - 1;
        DropConserves(before, fs.files, s, i, rest);
        fs.Unref(s[i]);
      }
      assert multiset(s[..0]) == multiset{};
      AllDropped(before, fs.files, multiset(s), rest);
    }
  }

  lemma ConservesItself(files: map<File, int>, slots: multiset<File>)
    ensures Conserves(files, slots, files, slots)
  {
  }

  lemma AllDropped(before: map<File, int>, files: map<File, int>, slots: multiset<File>, rest: multiset<File>)
    requires Holds(before, slots + rest) && Conserves(before, slots, files, multiset{})
    ensures Holds(files, rest)
  {
  }

  /** What is left to drop is still referenced, and dropping it conserves. */
  lemma DropConserves(before: map<File, int>, files: map<File, int>, s: seq<File>, i: nat, rest: multiset<File>)
    requires i < |s| && Live(files) && Holds(before, multiset(s) + rest) && Conserves(before, multiset(s), files, multiset(s[..i + 1]))
    ensures s[i] != NULL ==> s[i] in files
    ensures Conserves(before, multiset(s), Dropped(files, s[i]), multiset(s[..i]))
  {
    assert s[..i + 1] == s[..i] + [s[i]];
    if s[i] != NULL {
      assert Count(files, s[i]) >= multiset(s[..i + 1])[s[i]] > 0;
    }
  }

  // ----- all contexts -----

  /** How many slots hold a file, over all contexts. */
  function Held(contexts: seq<multiset<File>>, f: File): nat {
    if contexts == [] then 0 else contexts[0][f] + Held(contexts[1..], f)
  }

  /** The reference map together with what the slots of each context hold. */
  datatype World = World(files: map<File, int>, contexts: seq<multiset<File>>)

  /** Each file's count is the number of slots that hold it. */
  ghost predicate Balanced(w: World) {
    Live(w.files) && forall f: File :: f != NULL ==> Count(w.files, f) == Held(w.contexts, f)
  }

  /** A context is created, destroyed, or makes one of its calls; as the contracts of `Context` say. */
  ghost predicate Next(w: World, w': World) {
    Live(w'.files) && (
      || (exists s :: Conserves(w.files, multiset{}, w'.files, s) && w'.contexts == w.contexts + [s])
      || (exists i: nat ::
            && i < |w.contexts| && Conserves(w.files, w.contexts[i], w'.files, multiset{})
            && w'.contexts == w.contexts[..i] + w.contexts[i + 1..])
      || (exists i: nat, s ::
            && i < |w.contexts| && Conserves(w.files, w.contexts[i], w'.files, s)
            && w'.contexts == w.contexts[i := s]))
  }

  lemma {:induction false} HeldAppend(a: seq<multiset<File>>, b: seq<multiset<File>>, f: File)
    ensures Held(a + b, f) == Held(a, f) + Held(b, f)
  {
    if a == [] {
      assert a + b == b;
    } else {
      HeldAppend(a[1..], b, f);
      assert (a + b)[1..] == a[1..] + b;
    }
  }

  lemma HeldAt(c: seq<multiset<File>>, i: nat, f: File)
    requires i < |c|
    ensures Held(c, f) == Held(c[..i], f) + c[i][f] + Held(c[i + 1..], f)
  {
    HeldAppend(c[..i], c[i..], f);
    assert c == c[..i] + c[i..] && c[i..][1..] == c[i + 1..];
  }

  /** Every step keeps the counts exact. */
  lemma StepKeepsBalance(w: World, w': World)
    requires Balanced(w) && Next(w, w')
    ensures Balanced(w')
  {
    forall f: File | f != NULL
      ensures Count(w'.files, f) == Held(w'.contexts, f)
    {
      StepCounts(w, w', f);
    }
  }

  lemma StepCounts(w: World, w': World, f: File)
    requires Balanced(w) && Next(w, w') && f != NULL
    ensures Count(w'.files, f) == Held(w'.contexts, f)
  {
    var c, c' := w.contexts, w'.contexts;
    if s :| Conserves(w.files, multiset{}, w'.files, s) && c' == c + [s] {
      HeldAppend(c, [s], f);
    } else if i: nat :| i < |c| && Conserves(w.files, c[i], w'.files, multiset{}) && c' == c[..i] + c[i + 1..] {
      HeldAt(c, i, f);
      HeldAppend(c[..i], c[i + 1..], f);
    } else {
      var i: nat, s :| i < |c| && Conserves(w.files, c[i], w'.files, s) && c' == c[i := s];
      HeldAt(c, i, f);
      HeldAt(c', i, f);
      assert c'[..i] == c[..i] && c'[i + 1..] == c[i + 1..];
    }
  }

  ghost predicate Run(run: seq<World>) {
    |run| > 0 && run[0] == World(map[], []) && forall i :: 0 <= i < |run| - 1 ==> Next(run[i], run[i + 1])
  }

  /** In every run each file's count is the number of slots that hold it, no slot holds a deleted
      file, and when all contexts are gone so are all files. */
  lemma {:induction false} RunsAreBalanced(run: seq<World>)
    requires Run(run)
    ensures
      var w := run[|run| - 1];
      && Balanced(w)
      && (forall i, f: File :: 0 <= i < |w.contexts| && f in w.contexts[i] && f != NULL ==> f in w.files)
      && (w.contexts == [] ==> w.files == map[])
  {
    var w := run[|run| - 1];
    if |run| > 1 {
      RunsAreBalanced(run[..|run| - 1]);
      StepKeepsBalance(run[|run| - 2], w);
    }
    forall i, f: File | 0 <= i < |w.contexts| && f in w.contexts[i] && f != NULL
      ensures f in w.files
    {
      HeldAt(w.contexts, i, f);
      assert Count(w.files, f) > 0;
    }
    if w.contexts == [] {
      NoContextsNoFiles(w);
    }
  }

  /** So in a balanced world every context may make its calls. */
  lemma BalancedContextsHold(w: World, i: nat)
    requires Balanced(w) && i < |w.contexts|
    ensures Holds(w.files, w.contexts[i])
  {
    forall f: File | f != NULL
      ensures w.contexts[i][f] <= Count(w.files, f)
    {
      HeldAt(w.contexts, i, f);
    }
  }

  /** In a balanced world without contexts no file is left. */
  lemma NoContextsNoFiles(w: World)
    requires Balanced(w) && w.contexts == []
    ensures w.files == map[]
  {
    forall f: File
      ensures f !in w.files
    {
      assert f != NULL ==> Count(w.files, f) == 0;
    }
  }

  lemma CreationIsStep(w: World, w': World, s: multiset<File>)
    requires Balanced(w) && Live(w'.files) && Conserves(w.files, multiset{}, w'.files, s) && w'.contexts == w.contexts + [s]
    ensures Next(w, w') && Balanced(w')
  {
    StepKeepsBalance(w, w');
  }

  lemma DeletionIsStep(w: World, w': World, i: nat)
    requires Balanced(w) && Live(w'.files) && i < |w.contexts|
    requires Conserves(w.files, w.contexts[i], w'.files, multiset{}) && w'.contexts == w.contexts[..i] + w.contexts[i + 1..]
    ensures Next(w, w') && Balanced(w')
  {
    StepKeepsBalance(w, w');
  }

  // ----- the system -----

  /** What the slots of each context hold. */
  ghost function AllSlots(contexts: seq<Context>): (s: seq<multiset<File>>)
    reads set c | c in contexts :: c.files, set c | c in contexts :: c.stdFiles
    ensures |s| == |contexts|
  {
    seq(|contexts|, i requires 0 <= i < |contexts|
      reads set c | c in contexts :: c.files, set c | c in contexts :: c.stdFiles => contexts[i].Slots())
  }

  /** No two contexts share a slot. */
  ghost predicate Separate(fs: FileSystem, contexts: seq<Context>) {
    && (forall i :: 0 <= i < |contexts| ==> contexts[i].fs == fs && contexts[i].files.Length == NFILES && contexts[i].stdFiles.Length == 5)
    && (forall i, j :: 0 <= i < j < |contexts| ==>
          contexts[i].files != contexts[j].files && contexts[i].stdFiles != contexts[j].stdFiles)
  }

  lemma WithContext(fs: FileSystem, contexts: seq<Context>, c: Context)
    requires Separate(fs, contexts) && c.fs == fs && c.files.Length == NFILES && c.stdFiles.Length == 5
    requires forall i :: 0 <= i < |contexts| ==> contexts[i].files != c.files && contexts[i].stdFiles != c.stdFiles
    ensures Separate(fs, contexts + [c]) && AllSlots(contexts + [c]) == AllSlots(contexts) + [c.Slots()]
  {
  }

  lemma WithoutContext(fs: FileSystem, contexts: seq<Context>, i: nat)
    requires Separate(fs, contexts) && i < |contexts|
    ensures
      var rest := contexts[..i] + contexts[i + 1..];
      Separate(fs, rest) && AllSlots(rest) == AllSlots(contexts)[..i] + AllSlots(contexts)[i + 1..]
  {
  }

  /** All contexts and the file system they share. Each of its calls is a step of the world. */
  class Dos {
    const fs: FileSystem
    ghost var contexts: seq<Context>

    ghost function Shared(): World
      reads this, fs, set c | c in contexts :: c.files, set c | c in contexts :: c.stdFiles
    {
      World(fs.files, AllSlots(contexts))
    }

    /** The contexts are separate objects of this file system, and every count is right. */
    ghost predicate Valid()
      reads this, fs, set c | c in contexts :: c.files, set c | c in contexts :: c.stdFiles
    {
      Separate(fs, contexts) && Balanced(Shared())
    }

    constructor ()
      ensures Valid() && contexts == [] && fresh(fs) && Shared() == World(map[], [])
    {
      fs := new FileSystem();
      contexts := [];
    }

    lemma ContextHolds(i: nat)
      requires Valid() && i < |contexts|
      ensures contexts[i].Valid() && contexts[i].fs == fs
    {
      SlotsAt(i);
      BalancedContextsHold(Shared(), i);
    }

    lemma SlotsAt(i: nat)
      requires i < |contexts|
      ensures Shared().contexts[i] == contexts[i].Slots()
    {
    }

    lemma FilesLive()
      requires Valid()
      ensures Live(fs.files)
    {
    }

    /** A call that changes one context's slots and conserves the references is a step. */
    twostate lemma CallIsStep(i: nat)
      requires old(Valid()) && contexts == old(contexts) && i < |contexts| && Live(fs.files)
      requires Conserves(old(fs.files), old(contexts[i].Slots()), fs.files, contexts[i].Slots())
      requires forall j :: 0 <= j < |contexts| && j != i ==> contexts[j].Slots() == old(contexts[j].Slots())
      ensures Next(old(Shared()), Shared()) && Valid()
    {
      var w, w' := old(Shared()), Shared();
      var s := contexts[i].Slots();
      assert w'.contexts == w.contexts[i := s];
      assert w.contexts[i] == old(contexts[i].Slots()) && Conserves(w.files, w.contexts[i], w'.files, s);
      StepKeepsBalance(w, w');
    }

    method CreateContext(f: File) returns (c: Context)
      requires Valid() && f != NULL && f !in fs.files
      modifies this, fs
      ensures contexts == old(contexts) + [c] && fresh(c) && fresh(c.files) && fresh(c.stdFiles)
      ensures Valid() && Next(old(Shared()), Shared())
    {
      FilesLive();
      hide Balanced, Next, Conserves, Live, Holds, Separate, AllSlots, Context.Slots;
      c := new Context(fs, f);
      WithContext(fs, contexts, c);
      contexts := contexts + [c];
      CreationIsStep(old(Shared()), Shared(), c.Slots());
    }

    method DeleteContext(c: Context, ghost i: nat)
      requires Valid() && i < |contexts| && contexts[i] == c
      modifies this, fs
      ensures contexts == old(contexts)[..i] + old(contexts)[i + 1..]
      ensures Valid() && Next(old(Shared()), Shared())
      ensures contexts == [] ==> fs.files == map[]
    {
      hide Balanced, Next, Conserves, Live, Holds, Separate, AllSlots, Context.Slots, Context.Valid;
      ContextHolds(i);
      ghost var w := Shared();
      SlotsAt(i);
      c.Destroy();
      WithoutContext(fs, contexts, i);
      contexts := contexts[..i] + contexts[i + 1..];
      DeletionIsStep(w, Shared(), i);
      if contexts == [] {
        NoContextsNoFiles(Shared());
      }
    }

    method Close(c: Context, fd: nat, ghost i: nat) returns (code: int)
      requires Valid() && i < |contexts| && contexts[i] == c
      modifies fs, c.files
      ensures Valid() && contexts == old(contexts) && Next(old(Shared()), Shared())
    {
      ContextHolds(i);
      code := c.Close(fd);
      CallIsStep(i);
    }

    method Dup(c: Context, fd: nat, ghost i: nat) returns (code: int)
      requires Valid() && i < |contexts| && contexts[i] == c
      modifies fs, c.files
      ensures Valid() && contexts == old(contexts) && Next(old(Shared()), Shared())
    {
      ContextHolds(i);
      code := c.Dup(fd);
      CallIsStep(i);
    }

    method Open(c: Context, console: bool, mode: bv16, host: Host, f: File, ghost i: nat) returns (code: int)
      requires Valid() && i < |contexts| && contexts[i] == c && f != NULL && f !in fs.files
      modifies fs, c.files
      ensures Valid() && contexts == old(contexts) && Next(old(Shared()), Shared())
    {
      ContextHolds(i);
      code := c.Open(console, mode, host, f);
      CallIsStep(i);
    }

    method Create(c: Context, host: Host, f: File, ghost i: nat) returns (code: int)
      requires Valid() && i < |contexts| && contexts[i] == c && f != NULL && f !in fs.files
      modifies fs, c.files
      ensures Valid() && contexts == old(contexts) && Next(old(Shared()), Shared())
    {
      ContextHolds(i);
      code := c.Create(host, f);
      CallIsStep(i);
    }
  }
}
