/** The watchdog's status file: a save through a temporary and a backup file, as a sequence of disk
    operations that a crash may cut anywhere, and the choice of file at recovery. */
module StatusFile {
  import opened Basics

  datatype Name = Primary | Temp | Backup

  type Text = seq<char>
  type Files = map<Name, Text>

  /** One operation on the disk. Copying a file is creating the target empty and then appending to
      it block by block. */
  datatype Op = Create(name: Name) | Append(name: Name, text: Text) | Remove(name: Name)

  function Apply(f: Files, op: Op): Files {
    match op
    case Create(n) => f[n := []]
    case Append(n, t) => if n in f then f[n := f[n] + t] else f
    case Remove(n) => f - {n}
  }

  function ApplyAll(f: Files, ops: seq<Op>): Files
    decreases |ops|
  {
    if ops == [] then f else ApplyAll(Apply(f, ops[0]), ops[1..])
  }

  function WriteOps(n: Name, t: Text, block: nat): (ops: seq<Op>)
    requires block > 0
    ensures t != [] <==> ops != []
    decreases |t|
  {
    if t == [] then []
    else
      var m := Min(block, |t|);
      [Append(n, t[..m])] + WriteOps(n, t[m..], block)
  }

  /** File::moveTo is a copy followed by a removal, not a rename. */
  function MoveOps(from: Name, to: Name, t: Text, block: nat): seq<Op>
    requires block > 0
  {
    [Create(to)] + WriteOps(to, t, block) + [Remove(from)]
  }

  /** What a save does up to the point where the primary file is gone. */
  function PrepareOps(f: Files, t: Text, block: nat): seq<Op>
    requires block > 0
  {
    [Create(Temp)] + WriteOps(Temp, t, block)
    + (if Backup in f then [Remove(Backup)] else [])
    + (if Primary in f then MoveOps(Primary, Backup, f[Primary], block) else [])
  }

  /** serializeStatusToFile. The temporary file is opened exclusively, so a stale one stops the save. */
  function SaveOps(f: Files, t: Text, block: nat): seq<Op>
    requires block > 0
  {
    if Temp in f then [] else PrepareOps(f, t, block) + MoveOps(Temp, Primary, t, block)
  }

  datatype Recovery = Loaded(text: Text) | Failed

  /** The file that deserializeStatusFromFile reads. With only a backup it tries to read the
      temporary file, which is not there. */
  function Recover(f: Files): Recovery {
    if Primary in f then Loaded(f[Primary])
    else if Temp in f then Loaded(f[Temp])
    else Failed
  }

  lemma {:induction false} ApplyAppend(f: Files, a: seq<Op>, b: seq<Op>)
    ensures ApplyAll(f, a + b) == ApplyAll(ApplyAll(f, a), b)
    decreases |a|
  {
    if a == [] {
      assert a + b == b;
    } else {
      assert (a + b)[1..] == a[1..] + b;
      ApplyAppend(Apply(f, a[0]), a[1..], b);
    }
  }

  predicate Spares(ops: seq<Op>, n: Name) { forall i :: 0 <= i < |ops| ==> ops[i].name != n }

  lemma {:induction false} SparedKept(f: Files, ops: seq<Op>, n: Name)
    requires Spares(ops, n)
    ensures (n in ApplyAll(f, ops) <==> n in f) && (n in f ==> ApplyAll(f, ops)[n] == f[n])
    decreases |ops|
  {
    if ops != [] { SparedKept(Apply(f, ops[0]), ops[1..], n); }
  }

  lemma {:induction false} WriteOpsNames(n: Name, t: Text, block: nat)
    requires block > 0
    ensures forall i :: 0 <= i < |WriteOps(n, t, block)| ==> WriteOps(n, t, block)[i].name == n
    decreases |t|
  {
    if t != [] { WriteOpsNames(n, t[Min(block, |t|)..], block); }
  }

  /** The part of a text that j blocks hold. */
  function Copied(t: Text, block: nat, j: nat): (s: Text)
    requires block > 0
    ensures s <= t
    decreases j
  {
    if j == 0 || t == [] then []
    else
      var m := Min(block, |t|);
      assert t == t[..m] + t[m..];
      t[..m] + Copied(t[m..], block, j - 1)
  }

  /** That is its first j * block characters. */
  lemma {:induction false} CopiedIs(t: Text, block: nat, j: nat, n: nat)
    requires block > 0 && n == j * block
    ensures Copied(t, block, j) == t[..Min(n, |t|)]
    decreases j
  {
    if j > 0 {
      var m, rest := Min(block, |t|), n - block;
      assert rest == (j - 1) * block >= 0;
      CopiedIs(t[m..], block, j - 1, rest);
      TakeJoin(t, m, Min(rest, |t| - m));
    }
  }

  lemma TakeJoin(t: Text, m: nat, k: nat)
    requires m + k <= |t|
    ensures t[..m] + t[m..][..k] == t[..m + k]
  {
  }

  /** It is the whole text from the last block on, and not before. */
  lemma {:induction false} CopiedWhole(n: Name, t: Text, block: nat, j: nat)
    requires block > 0
    ensures Copied(t, block, j) == t <==> j >= |WriteOps(n, t, block)|
    decreases j
  {
    if j > 0 && t != [] {
      var m := Min(block, |t|);
      CopiedWhole(n, t[m..], block, j - 1);
      assert t == t[..m] + t[m..];
      assert Copied(t, block, j)[m..] == Copied(t[m..], block, j - 1);
    }
  }

  /** After j of its blocks a written file holds what they hold, behind what it held before. */
  lemma {:induction false} WriteProgress(f: Files, n: Name, t: Text, block: nat, j: nat)
    requires block > 0 && n in f && j <= |WriteOps(n, t, block)|
    ensures var g := ApplyAll(f, WriteOps(n, t, block)[..j]); n in g && g[n] == f[n] + Copied(t, block, j)
    decreases |t|
  {
    var ops := WriteOps(n, t, block);
    if j > 0 {
      var m := Min(block, |t|);
      var g := Apply(f, ops[0]);
      assert ops[..j][1..] == ops[1..][..j - 1];
      WriteProgress(g, n, t[m..], block, j - 1);
      Assoc(f[n], t[..m], Copied(t[m..], block, j - 1));
    } else {
      assert ops[..j] == [] && f[n] + [] == f[n];
    }
  }

  /** Creating a file and writing it, cut anywhere after the creation. */
  lemma CreateProgress(f: Files, n: Name, t: Text, block: nat, j: nat)
    requires block > 0 && 1 <= j <= 1 + |WriteOps(n, t, block)|
    ensures var g := ApplyAll(f, ([Create(n)] + WriteOps(n, t, block))[..j]);
      n in g && g[n] == Copied(t, block, j - 1) && (g[n] == t <==> j == 1 + |WriteOps(n, t, block)|)
  {
    var ops := [Create(n)] + WriteOps(n, t, block);
    assert ops[..j][1..] == WriteOps(n, t, block)[..j - 1];
    WriteProgress(f[n := []], n, t, block, j - 1);
    CopiedWhole(n, t, block, j - 1);
    assert [] + Copied(t, block, j - 1) == Copied(t, block, j - 1);
  }

  /** From disk f with b operations left until it fails, `ops` have been run as far as they go. */
  ghost predicate Ran(f: Files, b: nat, ops: seq<Op>, f': Files, b': nat, done: bool) {
    var k := Min(b, |ops|);
    f' == ApplyAll(f, ops[..k]) && b' == b - k && (done <==> b >= |ops|)
  }

  lemma RanThen(f: Files, b: nat, first: seq<Op>, f1: Files, b1: nat, done1: bool, second: seq<Op>, f2: Files,
                b2: nat, done2: bool)
    requires Ran(f, b, first, f1, b1, done1)
    requires if done1 then Ran(f1, b1, second, f2, b2, done2) else f2 == f1 && b2 == b1 && !done2
    ensures Ran(f, b, first + second, f2, b2, done2)
  {
    var k := Min(b, |first + second|);
    if done1 {
      assert first[..|first|] == first;
      assert (first + second)[..k] == first + second[..k - |first|];
      ApplyAppend(f, first, second[..k - |first|]);
    } else {
      assert (first + second)[..k] == first[..k];
    }
  }

  /** The save on a disk that fails after `budget` further operations. */
  class StatusStore {
    var files: Files
    var budget: nat
    const block: nat

    constructor (f: Files, b: nat, blockSize: nat)
      ensures files == f && budget == b && block == blockSize
    {
      files, budget, block := f, b, blockSize;
    }

    method Perform(op: Op) returns (done: bool)
      modifies this
      ensures Ran(old(files), old(budget), [op], files, budget, done)
    {
      done := budget > 0;
      if done {
        files := Apply(files, op);
        budget := budget - 1;
      }
    }

    /** Appends t to a file, block by block. */
    method Write(n: Name, t: Text) returns (done: bool)
      requires block > 0
      modifies this
      ensures Ran(old(files), old(budget), WriteOps(n, t, block), files, budget, done)
    {
      ghost var f, b, ops, j := files, budget, WriteOps(n, t, block), 0;
      var rest := t;
      done := true;
      while rest != [] && done
        invariant j <= |ops| && ops[j..] == WriteOps(n, rest, block)
        invariant if done then Ran(f, b, ops[..j], files, budget, true) else Ran(f, b, ops, files, budget, false)
        decreases |rest|
      {
        var m := Min(block, |rest|);
        ghost var f1, b1 := files, budget;
        assert ops[j] == ops[j..][0] == Append(n, rest[..m]) && ops[j..][1..] == ops[j + 1..];
        done := Perform(Append(n, rest[..m]));
        RanThen(f, b, ops[..j], f1, b1, true, [ops[j]], files, budget, done);
        assert ops[..j] + [ops[j]] == ops[..j + 1];
        if !done { StoppedShort(f, b, ops, j + 1, files, budget); }
        rest, j := rest[m..], j + 1;
      }
      if done { assert ops[..j] == ops; }
    }

    /** moveTo: copies block by block, then removes the source. */
    method MoveTo(from: Name, to: Name) returns (done: bool)
      requires block > 0 && from in files && from != to
      modifies this
      ensures Ran(old(files), old(budget), MoveOps(from, to, old(files)[from], block), files, budget, done)
    {
      var t := files[from];
      ghost var f, b := files, budget;
      done := Perform(Create(to));
      ghost var f1, b1, d1 := files, budget, done;
      if done { done := Write(to, t); }
      RanThen(f, b, [Create(to)], f1, b1, d1, WriteOps(to, t, block), files, budget, done);
      ghost var f2, b2, d2 := files, budget, done;
      if done { done := Perform(Remove(from)); }
      RanThen(f, b, [Create(to)] + WriteOps(to, t, block), f2, b2, d2, [Remove(from)], files, budget, done);
    }

    /** serializeStatusToFile on the text t; false when it throws or the disk fails. */
    method Save(t: Text) returns (ok: bool)
      requires block > 0
      modifies this
      ensures Temp in old(files) ==> !ok && files == old(files) && budget == old(budget)
      ensures Temp !in old(files) ==> Ran(old(files), old(budget), SaveOps(old(files), t, block), files, budget, ok)
    {
      if Temp in files { return false; }
      ghost var f, b := files, budget;
      ok := Prepare(t);
      ghost var f1, b1, d1 := files, budget, ok;
      if ok {
        PrepareDone(f, t, block);
        assert PrepareOps(f, t, block)[..|PrepareOps(f, t, block)|] == PrepareOps(f, t, block);
        ok := MoveTo(Temp, Primary);
      }
      RanThen(f, b, PrepareOps(f, t, block), f1, b1, d1, MoveOps(Temp, Primary, t, block), files, budget, ok);
    }

    /** The first part of a save: the temporary file, and the old primary file out of the way. */
    method Prepare(t: Text) returns (ok: bool)
      requires block > 0 && Temp !in files
      modifies this
      ensures Ran(old(files), old(budget), PrepareOps(old(files), t, block), files, budget, ok)
    {
      ghost var f, b := files, budget;
      ghost var a0, a1 := [Create(Temp)], WriteOps(Temp, t, block);
      ok := Perform(Create(Temp));
      ghost var f1, b1, d1 := files, budget, ok;
      if ok { ok := Write(Temp, t); }
      RanThen(f, b, a0, f1, b1, d1, a1, files, budget, ok);
      f1, b1, d1 := files, budget, ok;
      ghost var a2: seq<Op> := if Backup in f then [Remove(Backup)] else [];
      if ok {
        WholeRun(f, b, a0 + a1, files);
        TempWritten(f, t, block);
        if Backup in files { ok := Perform(Remove(Backup)); }
      }
      RanThen(f, b, a0 + a1, f1, b1, d1, a2, files, budget, ok);
      f1, b1, d1 := files, budget, ok;
      ghost var a3 := if Primary in f then MoveOps(Primary, Backup, f[Primary], block) else [];
      if ok {
        WholeRun(f, b, a0 + a1 + a2, files);
        PrimaryStill(f, t, block);
        if Primary in files { ok := MoveTo(Primary, Backup); }
      }
      RanThen(f, b, a0 + a1 + a2, f1, b1, d1, a3, files, budget, ok);
    }
  }

  lemma StoppedShort(f: Files, b: nat, ops: seq<Op>, j: nat, f1: Files, b1: nat)
    requires j <= |ops| && Ran(f, b, ops[..j], f1, b1, false)
    ensures Ran(f, b, ops, f1, b1, false)
  {
    assert ops[..j][..b] == ops[..b];
  }

  lemma WholeRun(f: Files, b: nat, ops: seq<Op>, f1: Files)
    requires b >= |ops| && f1 == ApplyAll(f, ops[..Min(b, |ops|)])
    ensures f1 == ApplyAll(f, ops)
  {
    assert ops[..|ops|] == ops;
  }

  /** Writing the temporary file leaves the other two alone. */
  lemma TempWritten(f: Files, t: Text, block: nat)
    requires block > 0
    ensures var g := ApplyAll(f, [Create(Temp)] + WriteOps(Temp, t, block));
      && Temp in g && g[Temp] == t
      && (Backup in g <==> Backup in f) && (Primary in g <==> Primary in f)
        && (Primary in f ==> g[Primary] == f[Primary])
  {
    var ops := [Create(Temp)] + WriteOps(Temp, t, block);
    WriteOpsNames(Temp, t, block);
    SparedKept(f, ops, Backup);
    SparedKept(f, ops, Primary);
    CreateProgress(f, Temp, t, block, |ops|);
    assert ops[..|ops|] == ops;
  }

  lemma PrimaryStill(f: Files, t: Text, block: nat)
    requires block > 0
    ensures var ops := [Create(Temp)] + WriteOps(Temp, t, block) + (if Backup in f then [Remove(Backup)] else []);
      var g := ApplyAll(f, ops);
      && Temp in g && g[Temp] == t && (Primary in g <==> Primary in f) && (Primary in f ==> g[Primary] == f[Primary])
  {
    var a := [Create(Temp)] + WriteOps(Temp, t, block);
    TempWritten(f, t, block);
    ApplyAppend(f, a, if Backup in f then [Remove(Backup)] else []);
  }

  /** Before the second copy the temporary file is complete, and the primary file is gone. */
  lemma PrepareDone(f: Files, t: Text, block: nat)
    requires block > 0
    ensures var g := ApplyAll(f, PrepareOps(f, t, block)); Temp in g && g[Temp] == t && Primary !in g
    ensures var g := ApplyAll(f, PrepareOps(f, t, block)); Primary in f ==> Backup in g && g[Backup] == f[Primary]
  {
    var a := [Create(Temp)] + WriteOps(Temp, t, block) + (if Backup in f then [Remove(Backup)] else []);
    PrimaryStill(f, t, block);
    if Primary in f {
      var g := ApplyAll(f, a);
      MoveDone(g, Primary, Backup, block);
      SparedByMove(g, Primary, Backup, block, Temp);
      ApplyAppend(f, a, MoveOps(Primary, Backup, f[Primary], block));
    } else {
      assert a + [] == a;
    }
  }

  lemma MoveDone(f: Files, from: Name, to: Name, block: nat)
    requires block > 0 && from in f && from != to
    ensures var g := ApplyAll(f, MoveOps(from, to, f[from], block)); from !in g && to in g && g[to] == f[from]
  {
    var ops := [Create(to)] + WriteOps(to, f[from], block);
    CreateProgress(f, to, f[from], block, |ops|);
    assert ops[..|ops|] == ops;
    ApplyAppend(f, ops, [Remove(from)]);
  }

  lemma SparedByMove(f: Files, from: Name, to: Name, block: nat, n: Name)
    requires block > 0 && from in f && n != from && n != to
    ensures var g := ApplyAll(f, MoveOps(from, to, f[from], block)); (n in g <==> n in f) && (n in f ==> g[n] == f[n])
  {
    WriteOpsNames(to, f[from], block);
    SparedKept(f, MoveOps(from, to, f[from], block), n);
  }

  /** A completed save: the new text is the primary file, the old one the backup, and the
      temporary file is gone, so the next save can start. */
  lemma SaveDone(f: Files, t: Text, block: nat)
    requires block > 0 && Temp !in f
    ensures var g := ApplyAll(f, SaveOps(f, t, block));
      && Primary in g && g[Primary] == t && Temp !in g && Recover(g) == Loaded(t)
      && (Primary in f ==> Backup in g && g[Backup] == f[Primary])
  {
    PrepareDone(f, t, block);
    var g := ApplyAll(f, PrepareOps(f, t, block));
    MoveDone(g, Temp, Primary, block);
    SparedByMove(g, Temp, Primary, block, Backup);
    ApplyAppend(f, PrepareOps(f, t, block), MoveOps(Temp, Primary, t, block));
  }

  /** While the old primary file is being copied away it is still the one that recovery reads. */
  lemma OldUntilRemoved(f: Files, t: Text, block: nat, n: nat)
    requires block > 0 && Primary in f && n < |PrepareOps(f, t, block)|
    ensures Recover(ApplyAll(f, PrepareOps(f, t, block)[..n])) == Loaded(f[Primary])
  {
    var ops := PrepareOps(f, t, block);
    WriteOpsNames(Temp, t, block);
    WriteOpsNames(Backup, f[Primary], block);
    var keep := [Create(Temp)] + WriteOps(Temp, t, block) + (if Backup in f then [Remove(Backup)] else [])
                + ([Create(Backup)] + WriteOps(Backup, f[Primary], block));
    assert ops == keep + [Remove(Primary)];
    assert Spares(keep, Primary);
    assert ops[..n] == keep[..n];
    SparedKept(f, ops[..n], Primary);
  }

  /** The second copy, cut after j of its operations: what its blocks hold is in the primary file. */
  lemma SecondCopy(g: Files, t: Text, block: nat, j: nat)
    requires block > 0 && Temp in g && g[Temp] == t && 1 <= j <= |MoveOps(Temp, Primary, t, block)|
    ensures var d := ApplyAll(g, MoveOps(Temp, Primary, t, block)[..j]);
      Primary in d && d[Primary] == Copied(t, block, j - 1)
  {
    CopiedWhole(Primary, t, block, j - 1);
    var copy := [Create(Primary)] + WriteOps(Primary, t, block);
    var ops := MoveOps(Temp, Primary, t, block);
    if j <= |copy| {
      assert ops[..j] == copy[..j];
      CreateProgress(g, Primary, t, block, j);
    } else {
      assert ops[..j] == copy + [Remove(Temp)];
      assert copy[..|copy|] == copy;
      CreateProgress(g, Primary, t, block, |copy|);
      ApplyAppend(g, copy, [Remove(Temp)]);
    }
  }

  /** The number of operations after which the old primary file is gone, and after which the new
      one is complete. */
  function GoneAt(f: Files, t: Text, block: nat): nat
    requires block > 0
  {
    |PrepareOps(f, t, block)|
  }

  function WholeAt(f: Files, t: Text, block: nat): nat
    requires block > 0
  {
    |PrepareOps(f, t, block)| + 1 + |WriteOps(Primary, t, block)|
  }

  /** On a disk without a primary file recovery reads the temporary file as far as it is written. */
  lemma FirstSaveSoFar(f: Files, t: Text, block: nat, n: nat)
    requires block > 0 && Primary !in f && Temp !in f && n <= |PrepareOps(f, t, block)|
    ensures Recover(ApplyAll(f, PrepareOps(f, t, block)[..n])) ==
            if n == 0 then Failed else Loaded(Copied(t, block, n - 1))
  {
    var ops, write := PrepareOps(f, t, block), [Create(Temp)] + WriteOps(Temp, t, block);
    WriteOpsNames(Temp, t, block);
    SparedKept(f, ops[..n], Primary);
    if n == 0 {
      assert ops[..0] == [];
    } else if n <= |write| {
      assert ops[..n] == write[..n];
      CreateProgress(f, Temp, t, block, n);
    } else {
      assert ops == write + [Remove(Backup)] && ops[..n] == ops;
      assert write[..|write|] == write;
      CreateProgress(f, Temp, t, block, |write|);
      CopiedWhole(Temp, t, block, n - 1);
      ApplyAppend(f, write, [Remove(Backup)]);
    }
  }

  /** What recovery reads after a crash that cuts a save after n operations: the old text as long
      as the old primary file is there (without one, the temporary file as far as it is written);
      then the new text from the temporary file; then a torn copy of it; then the new text. */
  lemma CrashOutcome(f: Files, t: Text, block: nat, n: nat)
    requires block > 0 && Temp !in f && n <= |SaveOps(f, t, block)|
    ensures Recover(ApplyAll(f, SaveOps(f, t, block)[..n])) ==
      if n < GoneAt(f, t, block) then
        if Primary in f then Loaded(f[Primary]) else if n == 0 then Failed else Loaded(Copied(t, block, n - 1))
      else if n == GoneAt(f, t, block) then Loaded(t)
      else Loaded(Copied(t, block, n - GoneAt(f, t, block) - 1))
  {
    var a, b := PrepareOps(f, t, block), MoveOps(Temp, Primary, t, block);
    if n < |a| {
      assert (a + b)[..n] == a[..n];
      if Primary in f { OldUntilRemoved(f, t, block, n); } else { FirstSaveSoFar(f, t, block, n); }
    } else {
      assert (a + b)[..n] == a + b[..n - |a|];
      ApplyAppend(f, a, b[..n - |a|]);
      PrepareDone(f, t, block);
      var g := ApplyAll(f, a);
      if n == |a| {
        assert b[..0] == [];
      } else {
        SecondCopy(g, t, block, n - |a|);
      }
    }
  }

  /** The crash falls into a copy that recovery will read: the second one, or, on a disk without a
      primary file, the writing of the temporary file. */
  predicate InWindow(f: Files, t: Text, block: nat, n: nat)
    requires block > 0
  {
    GoneAt(f, t, block) < n < WholeAt(f, t, block) || (Primary !in f && 1 <= n <= |WriteOps(Temp, t, block)|)
  }

  /** How many blocks that copy has got. */
  function BlocksDone(f: Files, t: Text, block: nat, n: nat): nat
    requires block > 0 && InWindow(f, t, block, n)
  {
    if GoneAt(f, t, block) < n then n - GoneAt(f, t, block) - 1 else n - 1
  }

  /** A crash loses the status exactly when it falls into such a copy, unless the blocks copied
      happen to be the old text: moveTo is no rename. */
  lemma TornIff(f: Files, t: Text, block: nat, n: nat)
    requires block > 0 && Temp !in f && n <= |SaveOps(f, t, block)|
    ensures Recover(ApplyAll(f, SaveOps(f, t, block)[..n])) !in {Recover(f), Loaded(t)} <==>
            InWindow(f, t, block, n) && Loaded(Copied(t, block, BlocksDone(f, t, block, n))) != Recover(f)
  {
    CrashOutcome(f, t, block, n);
    if n > 0 { CopiedWhole(Temp, t, block, n - 1); }
    if n > GoneAt(f, t, block) { CopiedWhole(Primary, t, block, n - GoneAt(f, t, block) - 1); }
  }

  /** Such a crash: saving "new" over "old" with blocks of two characters and losing power after
      the first block of the second copy leaves "ne". */
  lemma TornExample()
    ensures var f: Files := map[Primary := "old"];
      && Recover(ApplyAll(f, SaveOps(f, "new", 2)[..9])) == Loaded("ne")
      && GoneAt(f, "new", 2) < 9 < WholeAt(f, "new", 2)
  {
    var f: Files := map[Primary := "old"];
    assert "new"[..2] == "ne" && "new"[2..] == "w" && "old"[..2] == "ol" && "old"[2..] == "d";
    assert WriteOps(Temp, "new", 2) == [Append(Temp, "ne"), Append(Temp, "w")] by { TwoBlocks(Temp, "new"); }
    assert WriteOps(Backup, "old", 2) == [Append(Backup, "ol"), Append(Backup, "d")] by { TwoBlocks(Backup, "old"); }
    assert WriteOps(Primary, "new", 2) == [Append(Primary, "ne"), Append(Primary, "w")] by {
      TwoBlocks(Primary, "new");
    }
    var a, b := PrepareOps(f, "new", 2), MoveOps(Temp, Primary, "new", 2);
    assert |a| == 7;
    assert (a + b)[..9] == a + [Create(Primary), Append(Primary, "ne")];
    ApplyAppend(f, a, [Create(Primary), Append(Primary, "ne")]);
    var g := ApplyAll(f, a);
    var two := [Create(Primary), Append(Primary, "ne")];
    assert ApplyAll(g, two) == Apply(Apply(g, Create(Primary)), Append(Primary, "ne")) by {
      assert two[1..] == [Append(Primary, "ne")];
    }
    assert [] + "ne" == "ne";
  }

  /** The operations of one save, over a disk with a primary file and a backup. */
  lemma SaveExample()
    ensures var f: Files := map[Primary := "old", Backup := "older"];
      SaveOps(f, "new", 4) ==
        [Create(Temp), Append(Temp, "new"), Remove(Backup), Create(Backup), Append(Backup, "old"), Remove(Primary),
         Create(Primary), Append(Primary, "new"), Remove(Temp)]
  {
    assert "new"[..3] == "new" && "old"[..3] == "old";
    assert WriteOps(Temp, "new", 4) == [Append(Temp, "new")];
    assert WriteOps(Backup, "old", 4) == [Append(Backup, "old")];
    assert WriteOps(Primary, "new", 4) == [Append(Primary, "new")];
  }

  lemma TwoBlocks(n: Name, t: Text)
    requires |t| == 3
    ensures WriteOps(n, t, 2) == [Append(n, t[..2]), Append(n, t[2..])]
  {
    assert WriteOps(n, t[2..], 2) == [Append(n, t[2..][..1])] + WriteOps(n, t[2..][1..], 2);
    assert t[2..][..1] == t[2..];
  }

  predicate NeverRemoves(ops: seq<Op>, n: Name) { forall i :: 0 <= i < |ops| ==> ops[i] != Remove(n) }

  lemma {:induction false} StaysPresent(f: Files, ops: seq<Op>, n: Name)
    requires n in f && NeverRemoves(ops, n)
    ensures n in ApplyAll(f, ops)
    decreases |ops|
  {
    if ops != [] { StaysPresent(Apply(f, ops[0]), ops[1..], n); }
  }

  /** After any crash inside a save the temporary file is left over, and because it is opened
      exclusively no later save gets anywhere. */
  lemma StaleTempStopsSaves(f: Files, t: Text, block: nat, n: nat, later: Text)
    requires block > 0 && Temp !in f && 1 <= n < |SaveOps(f, t, block)|
    ensures var g := ApplyAll(f, SaveOps(f, t, block)[..n]); Temp in g && SaveOps(g, later, block) == []
  {
    var ops := SaveOps(f, t, block);
    WriteOpsNames(Temp, t, block);
    WriteOpsNames(Primary, t, block);
    if Primary in f { WriteOpsNames(Backup, f[Primary], block); }
    WriteOnly(Temp, t, block);
    WriteOnly(Primary, t, block);
    assert ops[..n][0] == Create(Temp);
    assert NeverRemoves(ops[..n][1..], Temp);
    StaysPresent(Apply(f, Create(Temp)), ops[..n][1..], Temp);
  }

  lemma {:induction false} WriteOnly(n: Name, t: Text, block: nat)
    requires block > 0
    ensures forall i :: 0 <= i < |WriteOps(n, t, block)| ==> WriteOps(n, t, block)[i].Append?
    decreases |t|
  {
    if t != [] { WriteOnly(n, t[Min(block, |t|)..], block); }
  }

  /** The disk after a run of completed saves. */
  function AfterSaves(f: Files, texts: seq<Text>, block: nat): Files
    requires block > 0
    decreases |texts|
  {
    if texts == [] then f else AfterSaves(ApplyAll(f, SaveOps(f, texts[0], block)), texts[1..], block)
  }

  /** The first save of a run, and the rest of the run. */
  lemma FirstOfSaves(f: Files, texts: seq<Text>, block: nat) returns (g: Files)
    requires block > 0 && Temp !in f && texts != []
    ensures Primary in g && Temp !in g && g[Primary] == texts[0]
    ensures AfterSaves(f, texts, block) == AfterSaves(g, texts[1..], block)
  {
    SaveDone(f, texts[0], block);
    g := ApplyAll(f, SaveOps(f, texts[0], block));
  }

  /** Over any run of completed saves recovery reads the last text saved, and the next save finds
      the disk as the crash lemmas assume it. */
  lemma {:induction false} RunOfSaves(f: Files, texts: seq<Text>, block: nat)
    requires block > 0 && Primary in f && Temp !in f
    ensures var g := AfterSaves(f, texts, block);
      && Primary in g && Temp !in g
      && Recover(g) == Loaded(if texts == [] then f[Primary] else texts[|texts| - 1])
    decreases |texts|
  {
    if texts != [] {
      var g := FirstOfSaves(f, texts, block);
      RunOfSaves(g, texts[1..], block);
    }
  }
}
