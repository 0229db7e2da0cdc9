/** Whole runs of statements: when the tables keep standing for the abstract index, and when they stop. */
module IndexRuns {
  import opened Text
  import opened UrlTables

  function Run(t: Tables, script: seq<Statement>): Tables
    decreases |script|
  {
    if script == [] then t else Run(Execute(t, script[0]), script[1..])
  }

  /** The abstract run, seen at file `n`. */
  function EntryRun(e: Option<FileEntry>, script: seq<Statement>, n: string): Option<FileEntry>
    decreases |script|
  {
    if script == [] then e else EntryRun(EntryAfter(e, script[0], n), script[1..], n)
  }

  /** After `k` statements a reader sees exactly the abstract index. */
  ghost predicate Agrees(t: Tables, script: seq<Statement>, k: nat)
    requires k <= |script|
  {
    forall n :: Seen(Run(t, script[..k]), n) == EntryRun(Seen(t, n), script[..k], n)
  }

  ghost predicate Simulates(t: Tables, script: seq<Statement>) {
    forall k :: 0 <= k <= |script| ==> Agrees(t, script, k)
  }

  /** Statement `k` is a set-time executed while an orphan row waits at the rowid it hands out. */
  ghost predicate Adopts(t: Tables, script: seq<Statement>, k: nat)
    requires k < |script|
  {
    script[k].SetTime? && StaleAtNext(Run(t, script[..k]))
  }

  lemma Tail(t: Tables, script: seq<Statement>, k: nat)
    requires 1 <= k <= |script|
    ensures Run(t, script[..k]) == Run(Execute(t, script[0]), script[1..][..k - 1])
    ensures forall e, n :: EntryRun(e, script[..k], n) == EntryRun(EntryAfter(e, script[0], n), script[1..][..k - 1], n)
  {
    assert script[..k][1..] == script[1..][..k - 1];
  }

  lemma AgreesTail(t: Tables, script: seq<Statement>, k: nat)
    requires 1 <= k <= |script| && Refines(t, script[0])
    ensures Agrees(t, script, k) <==> Agrees(Execute(t, script[0]), script[1..], k - 1)
  {
    Tail(t, script, k);
  }

  lemma AdoptsTail(t: Tables, script: seq<Statement>, k: nat)
    requires 1 <= k < |script|
    ensures Adopts(t, script, k) <==> Adopts(Execute(t, script[0]), script[1..], k - 1)
  {
    Tail(t, script, k);
  }

  /** The data refinement over whole runs, from any valid tables: it holds at every point of the run
      exactly when no set-time of the run meets an orphan at the next rowid. */
  lemma {:induction false} RunRefines(t: Tables, script: seq<Statement>)
    requires Valid(t)
    ensures Simulates(t, script) <==> forall k :: 0 <= k < |script| ==> !Adopts(t, script, k)
    decreases |script|
  {
    assert script[..0] == [];
    assert Agrees(t, script, 0);
    if script != [] {
      var t1, rest := Execute(t, script[0]), script[1..];
      StatementRefines(t, script[0]);
      ExecuteKeepsValid(t, script[0]);
      assert script[..0] == [] && (Adopts(t, script, 0) <==> !Refines(t, script[0]));
      if Refines(t, script[0]) {
        RunRefines(t1, rest);
        forall k | 1 <= k <= |script| {
          AgreesTail(t, script, k);
        }
        forall k | 1 <= k < |script| {
          AdoptsTail(t, script, k);
        }
        if Simulates(t, script) {
          forall j | 0 <= j <= |rest|
            ensures Agrees(t1, rest, j)
          {
            assert Agrees(t, script, j + 1);
          }
        } else if forall k :: 0 <= k < |script| ==> !Adopts(t, script, k) {
          forall j | 0 <= j < |rest|
            ensures !Adopts(t1, rest, j)
          {
            assert !Adopts(t, script, j + 1);
          }
        }
      } else {
        FirstStep(t, script);
        assert !Agrees(t, script, 1);
      }
    }
  }

  lemma FirstStep(t: Tables, script: seq<Statement>)
    requires script != []
    ensures Agrees(t, script, 1) <==> Refines(t, script[0])
  {
    assert script[..1] == [script[0]];
    Tail(t, script, 1);
  }

  predicate NoSetAfterDelete(script: seq<Statement>) {
    forall i, j :: 0 <= i < j < |script| && script[i].DeleteFile? ==> !script[j].SetTime?
  }

  lemma {:induction false} RunKeepsInv(t: Tables, script: seq<Statement>)
    requires Inv(t) && forall i :: 0 <= i < |script| ==> !script[i].DeleteFile?
    ensures Inv(Run(t, script))
    decreases |script|
  {
    if script != [] {
      StatementKeepsInv(t, script[0]);
      RunKeepsInv(Execute(t, script[0]), script[1..]);
    }
  }

  /** A run that sets no time after its first file deletion is safe from any state that satisfies the rowid
      invariant; UpdateScripts.UpdateIsSafeScript shows that every run of the updater is one. */
  lemma DeletingLastIsSafe(t: Tables, script: seq<Statement>)
    requires Inv(t) && NoSetAfterDelete(script)
    ensures Simulates(t, script)
  {
    forall k | 0 <= k < |script|
      ensures !Adopts(t, script, k)
    {
      if script[k].SetTime? {
        RunKeepsInv(t, script[..k]);
      }
    }
    RunRefines(t, script);
  }

  lemma ThreeSteps(t: Tables, s: seq<Statement>)
    requires |s| >= 3
    ensures Run(t, s) == Run(Execute(Execute(Execute(t, s[0]), s[1]), s[2]), s[3..])
    ensures forall e, n :: EntryRun(e, s, n) ==
                           EntryRun(EntryAfter(EntryAfter(EntryAfter(e, s[0], n), s[1], n), s[2], n), s[3..], n)
  {
    var s1, t1 := s[1..], Execute(t, s[0]);
    var s2, t2 := s1[1..], Execute(t1, s1[0]);
    assert s2[1..] == s[3..];
    assert Run(t, s) == Run(t1, s1) == Run(t2, s2) == Run(Execute(t2, s2[0]), s2[1..]);
    forall e: Option<FileEntry>, n
      ensures EntryRun(e, s, n) == EntryRun(EntryAfter(EntryAfter(EntryAfter(e, s[0], n), s[1], n), s[2], n), s[3..], n)
    {
      var e1 := EntryAfter(e, s[0], n);
      var e2 := EntryAfter(e1, s1[0], n);
      assert EntryRun(e, s, n) == EntryRun(e1, s1, n) == EntryRun(e2, s2, n);
    }
  }

  /** File `a`, indexed twice: the row of its first version is an orphan below its new rowid. */
  function Orphaned(a: string, protocol: string, suffix: string): Tables {
    Tables(map[2 := ConfigRow(a, 2)], {UrlRow(1, protocol, suffix)})
  }

  lemma OrphanArises(a: string, protocol: string, suffix: string)
    ensures var t := Orphaned(a, protocol, suffix);
            && Execute(Execute(Execute(EMPTY, SetTime(a, 1)), InsertUrl(a, protocol, suffix)), SetTime(a, 2)) == t
            && Inv(t)
  {
    var t1 := Execute(EMPTY, SetTime(a, 1));
    assert NextRowid(EMPTY) == 1;
    assert t1 == Tables(map[1 := ConfigRow(a, 1)], {});
    var t2 := Execute(t1, InsertUrl(a, protocol, suffix));
    assert RowidsOf(t1, a) == {1};
    assert t2 == Tables(map[1 := ConfigRow(a, 1)], {UrlRow(1, protocol, suffix)});
    assert NextRowid(t2) == 2 && RowidsOf(t2, a) == {1};
    assert 2 in Orphaned(a, protocol, suffix).configfiles;
  }

  /** Once `a` is removed the orphan waits at the rowid of the next new file. */
  lemma OrphanWaits(a: string, protocol: string, suffix: string)
    ensures var t := Remove(Orphaned(a, protocol, suffix), a);
            && t == Tables(map[], {UrlRow(1, protocol, suffix)}) && Valid(t)
            && NextRowid(t) == 1 && UrlsAt(t, 1) == {Url(protocol, suffix)}
  {
    var t := Orphaned(a, protocol, suffix);
    assert Holds(t, 2, a);
    RemoveTables(t, 2, a);
    var t' := Remove(t, a);
    assert t'.configfiles == map[];
    assert Url(protocol, suffix) in UrlsAt(t', 1);
  }

  /** Without that order the tables drift: index A, re-index A, remove A, then add B. B, which has no
      URL of its own, is handed rowid 1 and shows the URL of A's first version. */
  lemma {:induction false} ReusedRowidAdoptsUrls(a: string, b: string, protocol: string, suffix: string)
    requires a != b
    ensures var script := [SetTime(a, 1), InsertUrl(a, protocol, suffix), SetTime(a, 2),
                           DeleteUrls(a), DeleteFile(a), SetTime(b, 3)];
            && Seen(Run(EMPTY, script), b) == Some(FileEntry(3, {Url(protocol, suffix)}))
            && EntryRun(Seen(EMPTY, b), script, b) == Some(FileEntry(3, {}))
  {
    var script := [SetTime(a, 1), InsertUrl(a, protocol, suffix), SetTime(a, 2),
                   DeleteUrls(a), DeleteFile(a), SetTime(b, 3)];
    OrphanArises(a, protocol, suffix);
    OrphanWaits(a, protocol, suffix);
    var t3 := Orphaned(a, protocol, suffix);
    ThreeSteps(EMPTY, script);
    ThreeSteps(t3, script[3..]);
    assert Run(EMPTY, script) == Execute(Remove(t3, a), SetTime(b, 3));
    SetTimeSeen(Remove(t3, a), b, 3);
    assert !Known(EMPTY, b);
  }
}
