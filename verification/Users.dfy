/**
 * Staged user configuration: a file .name is what the administrator edits, a file name is in effect.
 * Adding, deleting and changing users, and the commit and rollback walks over the directory.
 */
module Users {

  type Files = map<string, string>

  const PASSWORD_MIN := 8
  const NAME_MAX := 32

  predicate Dotted(n: string) {
    n != "" && n[0] == '.'
  }

  function Staged(u: string): (n: string)
    ensures Dotted(n) && n[1..] == u
  {
    "." + u
  }

  predicate ValidName(u: string) {
    u != "" && u[0] != '.'
  }

  predicate ValidInput(u: string, password: string) {
    ValidName(u) && |password| >= PASSWORD_MIN && |u| <= NAME_MAX
  }

  /** What a file holds; no file and an empty file count as nothing. */
  function Holds(f: Files, n: string): string {
    if n in f then f[n] else ""
  }

  /** The directory holds users under both kinds of names and nothing else. */
  ghost predicate Sound(f: Files) {
    forall n :: n in f ==> ValidName(n) || (Dotted(n) && ValidName(n[1..]))
  }

  // ---- Operations on values ----

  datatype Result = Result(files: Files, ok: bool)

  function Added(f: Files, u: string, password: string, record: string, empty: bool): Result {
    if !ValidInput(u, password) || Staged(u) in f then Result(f, false)
    else
      var g := f[Staged(u) := record];
      Result(if empty then g[u := ""] else g, true)
  }

  function Deleted(f: Files, u: string, empty: bool): Result {
    if !ValidName(u) || Staged(u) !in f || u !in f then Result(f, false)
    else
      var g := f - {Staged(u)};
      Result(if f[u] == "" then g - {u} else if empty then g[Staged(u) := ""] else g, true)
  }

  function Changed(f: Files, u: string, password: string, record: string): Result {
    var d := Deleted(f, u, false);
    if !d.ok then d else Added(d.files, u, password, record, false)
  }

  function Cleaned(f: Files): Files {
    map n | n in f && f[n] != "" :: f[n]
  }

  /** Staged files copied over the effective ones, for the names in `done`. */
  ghost function CopiedOut(f: Files, done: set<string>): Files
    requires done <= f.Keys
  {
    map n | n in f.Keys + (set d | d in done && Dotted(d) :: d[1..]) ::
      if !Dotted(n) && Staged(n) in done then f[Staged(n)] else Holds(f, n)
  }

  /** Effective files copied over the staged ones. */
  ghost function CopiedBack(f: Files, done: set<string>): Files
    requires done <= f.Keys
  {
    map n | n in f.Keys + (set d | d in done && !Dotted(d) :: Staged(d)) ::
      if Dotted(n) && n[1..] in done && !Dotted(n[1..]) then f[n[1..]] else Holds(f, n)
  }

  ghost function Committed(f: Files): Files {
    Cleaned(CopiedOut(f, f.Keys))
  }

  ghost function RolledBack(f: Files): Files {
    Cleaned(CopiedBack(f, f.Keys))
  }

  // ---- The walks ----

  class Directory {
    var files: Files

    /** The cleanup walk unlinks empty files. */
    method Cleanup()
      modifies this
      ensures files == Cleaned(old(files))
    {
      var todo := files.Keys;
      while todo != {}
        invariant todo <= old(files).Keys
        invariant files == map n | n in old(files) && (n in todo || old(files)[n] != "") :: old(files)[n]
        decreases |todo|
      {
        var n :| n in todo;
        if files[n] == "" { files := files - {n}; }
        todo := todo - {n};
      }
    }

    /** users_admin_commit(). */
    method Commit()
      requires Sound(files)
      modifies this
      ensures files == Committed(old(files))
    {
      hide Sound;
      ghost var f := files;
      var todo := files.Keys;
      CopiedOutNone(f);
      while todo != {}
        invariant todo <= f.Keys && files == CopiedOut(f, f.Keys - todo)
        decreases |todo|
      {
        var n :| n in todo;
        CopiedOutStep(f, f.Keys - todo, n);
        if Dotted(n) { files := files[n[1..] := files[n]]; }
        assert f.Keys - (todo - {n}) == (f.Keys - todo) + {n};
        todo := todo - {n};
      }
      assert f.Keys - {} == f.Keys;
      Cleanup();
    }

    /** users_admin_rollback(). */
    method Rollback()
      requires Sound(files)
      modifies this
      ensures files == RolledBack(old(files))
    {
      hide Sound;
      ghost var f := files;
      var todo := files.Keys;
      CopiedBackNone(f);
      while todo != {}
        invariant todo <= f.Keys && files == CopiedBack(f, f.Keys - todo)
        decreases |todo|
      {
        var n :| n in todo;
        CopiedBackStep(f, f.Keys - todo, n);
        if !Dotted(n) { files := files[Staged(n) := files[n]]; }
        assert f.Keys - (todo - {n}) == (f.Keys - todo) + {n};
        todo := todo - {n};
      }
      assert f.Keys - {} == f.Keys;
      Cleanup();
    }

    /** _users_admin_add(). */
    method Add(u: string, password: string, record: string, empty: bool) returns (ok: bool)
      modifies this
      ensures Result(files, ok) == Added(old(files), u, password, record, empty)
    {
      if u == "" || u[0] == '.' { return false; }
      if |password| < PASSWORD_MIN { return false; }
      if |u| > NAME_MAX { return false; }
      if Staged(u) in files { return false; }
      files := files[Staged(u) := record];
      if empty { files := files[u := ""]; }
      ok := true;
    }

    /** _users_admin_delete_generic(). */
    method Delete(u: string, empty: bool) returns (ok: bool)
      modifies this
      ensures Result(files, ok) == Deleted(old(files), u, empty)
    {
      if u == "" || u[0] == '.' { return false; }
      if Staged(u) !in files { return false; }
      if u !in files { return false; }
      files := files - {Staged(u)};
      if files[u] == "" {
        files := files - {u};
      } else if empty {
        files := files[Staged(u) := ""];
      }
      ok := true;
    }

    /** users_admin_change(). */
    method Change(u: string, password: string, record: string) returns (ok: bool)
      modifies this
      ensures Result(files, ok) == Changed(old(files), u, password, record)
    {
      ok := Delete(u, false);
      if !ok { return; }
      ok := Add(u, password, record, false);
    }
  }

  lemma CopiedOutNone(f: Files)
    ensures CopiedOut(f, f.Keys - f.Keys) == f
  {
  }

  lemma InCopiedOut(f: Files, done: set<string>, k: string)
    requires done <= f.Keys && Sound(f)
    ensures k in CopiedOut(f, done) <==> k in f || (ValidName(k) && Staged(k) in done)
    ensures k in CopiedOut(f, done) ==>
              CopiedOut(f, done)[k] == if !Dotted(k) && Staged(k) in done then f[Staged(k)] else Holds(f, k)
  {
    if k in CopiedOut(f, done) && k !in f {
      var d :| d in done && Dotted(d) && d[1..] == k;
      DottedName(d);
    }
    if Staged(k) in done { assert Staged(k)[1..] == k; }
  }

  lemma CopiedOutStep(f: Files, done: set<string>, n: string)
    requires Sound(f) && done <= f.Keys && n in f && n !in done
    ensures var g := CopiedOut(f, done);
            n in g && CopiedOut(f, done + {n}) == if Dotted(n) then g[n[1..] := g[n]] else g
  {
    hide CopiedOut;
    var g, r := CopiedOut(f, done), CopiedOut(f, done + {n});
    InCopiedOut(f, done, n);
    var e := if Dotted(n) then g[n[1..] := g[n]] else g;
    if Dotted(n) { DottedName(n); }
    forall k ensures (k in r <==> k in e) && (k in r ==> r[k] == e[k]) {
      InCopiedOut(f, done, k);
      InCopiedOut(f, done + {n}, k);
    }
  }

  lemma DottedName(n: string)
    requires Dotted(n)
    ensures n == Staged(n[1..])
  {
  }

  lemma CopiedBackNone(f: Files)
    ensures CopiedBack(f, f.Keys - f.Keys) == f
  {
  }

  lemma InCopiedBack(f: Files, done: set<string>, k: string)
    requires done <= f.Keys
    ensures k in CopiedBack(f, done) <==> k in f || (Dotted(k) && k[1..] in done && !Dotted(k[1..]))
    ensures k in CopiedBack(f, done) ==>
              CopiedBack(f, done)[k] ==
              if Dotted(k) && k[1..] in done && !Dotted(k[1..]) then f[k[1..]] else Holds(f, k)
  {
    if Dotted(k) { DottedName(k); }
  }

  lemma CopiedBackStep(f: Files, done: set<string>, n: string)
    requires Sound(f) && done <= f.Keys && n in f && n !in done
    ensures var g := CopiedBack(f, done);
            n in g && CopiedBack(f, done + {n}) == if !Dotted(n) then g[Staged(n) := g[n]] else g
  {
    hide CopiedBack, Sound;
    var g, r := CopiedBack(f, done), CopiedBack(f, done + {n});
    InCopiedBack(f, done, n);
    var e := if !Dotted(n) then g[Staged(n) := g[n]] else g;
    forall k ensures (k in r <==> k in e) && (k in r ==> r[k] == e[k]) {
      InCopiedBack(f, done, k);
      InCopiedBack(f, done + {n}, k);
      if Dotted(k) { DottedName(k); }
    }
  }

  // ---- Views ----

  /** What is in effect for a user, and what is staged; nothing if the file is missing or empty. */
  function Effective(f: Files, u: string): string {
    Holds(f, u)
  }

  function Pending(f: Files, u: string): string {
    Holds(f, Staged(u))
  }

  /** A user in effect still has a staged file, if only an empty one. */
  ghost predicate Covered(f: Files) {
    forall u :: ValidName(u) && Effective(f, u) != "" ==> Staged(u) in f
  }

  /** Staged and effective names coincide. */
  ghost predicate Paired(f: Files) {
    forall u :: ValidName(u) ==> (u in f <==> Staged(u) in f)
  }

  lemma CommittedAt(f: Files, u: string)
    requires Sound(f) && ValidName(u)
    ensures var r := Committed(f);
            && Pending(r, u) == Pending(f, u)
            && (Staged(u) in f ==> Effective(r, u) == Pending(f, u))
            && (Staged(u) !in f ==> Effective(r, u) == Effective(f, u))
            && (u in r <==> Effective(r, u) != "") && (Staged(u) in r <==> Pending(r, u) != "")
  {
  }

  lemma RolledBackAt(f: Files, u: string)
    requires ValidName(u)
    ensures var r := RolledBack(f);
            && Effective(r, u) == Effective(f, u)
            && (u in f ==> Pending(r, u) == Effective(f, u))
            && (u !in f ==> Pending(r, u) == Pending(f, u))
            && (u in r <==> Effective(r, u) != "") && (Staged(u) in r <==> Pending(r, u) != "")
  {
  }

  lemma WalkedSound(f: Files)
    requires Sound(f)
    ensures Sound(Committed(f)) && Sound(RolledBack(f))
  {
  }

  // ---- Runs ----

  datatype Op =
    | Add(u: string, password: string, record: string)
    | Delete(u: string)
    | Change(u: string, password: string, record: string)
    | Commit
    | Rollback

  ghost function Step(f: Files, op: Op): Files {
    match op
    case Add(u, password, record) => Added(f, u, password, record, true).files
    case Delete(u) => Deleted(f, u, true).files
    case Change(u, password, record) => Changed(f, u, password, record).files
    case Commit => Committed(f)
    case Rollback => RolledBack(f)
  }

  /** A change that is not refused half way: its input is acceptable. */
  predicate Acceptable(op: Op) {
    op.Change? ==> ValidInput(op.u, op.password) && op.record != ""
  }

  ghost predicate Proper(f: Files) {
    Sound(f) && Covered(f)
  }

  lemma StagedInjective(u: string, v: string)
    ensures Staged(u) == Staged(v) <==> u == v
  {
  }

  /** Editing leaves what is in effect alone, and every user in effect stays covered. */
  lemma EditAt(f: Files, op: Op, u: string)
    requires Proper(f) && !op.Commit? && !op.Rollback? && Acceptable(op) && ValidName(u)
    ensures var r := Step(f, op);
            Effective(r, u) == Effective(f, u) && (Effective(r, u) != "" ==> Staged(u) in r)
  {
    StagedInjective(u, op.u);
    assert u != Staged(op.u);
  }

  lemma EditSound(f: Files, op: Op)
    requires Sound(f) && !op.Commit? && !op.Rollback?
    ensures Sound(Step(f, op))
  {
  }

  lemma StepProper(f: Files, op: Op)
    requires Proper(f) && Acceptable(op)
    ensures Proper(Step(f, op))
  {
    hide Sound, Step, Committed, RolledBack;
    StepIs(f, op);
    if op.Commit? {
      WalkedSound(f);
      var r := Committed(f);
      forall u | ValidName(u) && Effective(r, u) != "" ensures Staged(u) in r { CommittedAt(f, u); }
    } else if op.Rollback? {
      WalkedSound(f);
      var r := RolledBack(f);
      forall u | ValidName(u) && Effective(r, u) != "" ensures Staged(u) in r { RolledBackAt(f, u); }
    } else {
      EditSound(f, op);
      forall u | ValidName(u) && Effective(Step(f, op), u) != "" ensures Staged(u) in Step(f, op) { EditAt(f, op, u); }
    }
  }

  lemma StepIs(f: Files, op: Op)
    ensures op.Commit? ==> Step(f, op) == Committed(f)
    ensures op.Rollback? ==> Step(f, op) == RolledBack(f)
  {
  }

  ghost function Run(f: Files, ops: seq<Op>): Files {
    if ops == [] then f else Step(Run(f, ops[..|ops| - 1]), ops[|ops| - 1])
  }

  lemma {:induction false} RunProper(f: Files, ops: seq<Op>)
    requires Proper(f) && forall op :: op in ops ==> Acceptable(op)
    ensures Proper(Run(f, ops))
    decreases |ops|
  {
    hide Proper, Step, Acceptable;
    if ops != [] {
      assert ops[|ops| - 1] in ops;
      RunProper(f, ops[..|ops| - 1]);
      StepProper(Run(f, ops[..|ops| - 1]), ops[|ops| - 1]);
    }
  }

  /** Across any acceptable operations without a commit, nothing in effect changes. */
  lemma {:induction false} EffectiveOnlyAtCommit(f: Files, ops: seq<Op>, u: string)
    requires Proper(f) && ValidName(u) && forall op :: op in ops ==> Acceptable(op) && !op.Commit?
    ensures Effective(Run(f, ops), u) == Effective(f, u)
    decreases |ops|
  {
    hide Proper, Step, Acceptable, Committed, RolledBack, Effective;
    if ops != [] {
      var n := |ops| - 1;
      assert ops[n] in ops;
      var g := Run(f, ops[..n]);
      EffectiveOnlyAtCommit(f, ops[..n], u);
      RunProper(f, ops[..n]);
      StepIs(g, ops[n]);
      if ops[n].Rollback? { RolledBackAt(g, u); } else { EditAt(g, ops[n], u); }
    }
  }

  /** A commit puts exactly the staged users into effect. */
  lemma CommitAppliesStaged(f: Files, u: string)
    requires Proper(f) && ValidName(u)
    ensures Effective(Committed(f), u) == Pending(f, u) == Pending(Committed(f), u)
  {
  }

  // ---- What one edit does ----

  /** Nothing but this user's two files changes. */
  ghost predicate OthersKept(f: Files, r: Files, u: string) {
    forall n :: n != u && n != "." + u ==> (n in f <==> n in r) && (n in f && n in r ==> f[n] == r[n])
  }

  /** An addition succeeds for a new user with a usable name and password, and stages the record. */
  lemma AddIff(f: Files, u: string, password: string, record: string)
    ensures var r := Added(f, u, password, record, true);
            && (r.ok <==> u != "" && u[0] != '.' && 8 <= |password| && |u| <= 32 && "." + u !in f)
            && (r.ok ==> Pending(r.files, u) == record && u in r.files && OthersKept(f, r.files, u))
            && (!r.ok ==> r.files == f)
  {
  }

  /** A deletion succeeds for a user with both files, and leaves nothing staged and everything in effect as it was. */
  lemma DeleteIff(f: Files, u: string)
    ensures var r := Deleted(f, u, true);
            && (r.ok <==> u != "" && u[0] != '.' && "." + u in f && u in f)
            && (r.ok ==> Pending(r.files, u) == "" && Effective(r.files, u) == Effective(f, u))
            && (r.ok ==> ("." + u in r.files <==> Effective(f, u) != "") && OthersKept(f, r.files, u))
            && (!r.ok ==> r.files == f)
  {
  }

  /** A change succeeds for a user with both files and a usable password, and stages the new record. */
  lemma ChangeIff(f: Files, u: string, password: string, record: string)
    ensures var r := Changed(f, u, password, record);
            && (r.ok <==> u != "" && u[0] != '.' && "." + u in f && u in f && 8 <= |password| && |u| <= 32)
            && (r.ok ==> Pending(r.files, u) == record)
            && Effective(r.files, u) == Effective(f, u) && OthersKept(f, r.files, u)
  {
  }

  /** Whether an edit is carried out. */
  predicate Done(f: Files, op: Op) {
    match op
    case Add(u, password, record) => Added(f, u, password, record, true).ok
    case Delete(u) => Deleted(f, u, true).ok
    case Change(u, password, record) => Changed(f, u, password, record).ok
    case _ => false
  }

  /**
   * After an edit and a commit, that user has the new record in effect, or nothing if deleted, and every other user
   * what was staged before.
   */
  lemma EditThenCommit(f: Files, op: Op, v: string)
    requires Proper(f) && Acceptable(op) && Done(f, op) && ValidName(v)
    ensures Effective(Committed(Step(f, op)), v) ==
            if v != op.u then Pending(f, v) else if op.Delete? then "" else op.record
  {
    hide Proper, Committed, Added, Deleted, Changed;
    StepProper(f, op);
    CommitAppliesStaged(Step(f, op), v);
    StagedInjective(v, op.u);
    match op {
      case Add(u, password, record) => AddIff(f, u, password, record);
      case Delete(u) => DeleteIff(f, u);
      case Change(u, password, record) => ChangeIff(f, u, password, record);
    }
    if v != op.u { assert Staged(v) != op.u; }
  }

  /** Only users in effect are changed. */
  ghost predicate OnCommitted(f: Files, op: Op) {
    op.Change? ==> Effective(f, op.u) != ""
  }

  lemma StepPaired(f: Files, op: Op)
    requires Proper(f) && Paired(f) && Acceptable(op) && OnCommitted(f, op)
    ensures Paired(Step(f, op))
  {
    hide Sound, Committed, RolledBack;
    forall u | ValidName(u) ensures u in Step(f, op) <==> Staged(u) in Step(f, op) {
      if op.Commit? {
        CommittedAt(f, u);
      } else if op.Rollback? {
        RolledBackAt(f, u);
      } else {
        StagedInjective(u, op.u);
        assert u != Staged(op.u);
      }
    }
  }

  ghost predicate AllOnCommitted(f: Files, ops: seq<Op>) {
    ops == [] || (AllOnCommitted(f, ops[..|ops| - 1]) && OnCommitted(Run(f, ops[..|ops| - 1]), ops[|ops| - 1]))
  }

  lemma {:induction false} RunPaired(f: Files, ops: seq<Op>)
    requires Proper(f) && Paired(f) && AllOnCommitted(f, ops) && forall op :: op in ops ==> Acceptable(op)
    ensures Paired(Run(f, ops))
    decreases |ops|
  {
    hide Proper, Paired, Step, Acceptable, OnCommitted;
    if ops != [] {
      assert ops[|ops| - 1] in ops;
      RunPaired(f, ops[..|ops| - 1]);
      RunProper(f, ops[..|ops| - 1]);
      StepPaired(Run(f, ops[..|ops| - 1]), ops[|ops| - 1]);
    }
  }

  /** After any edits, a rollback brings the staged users back to what was last in effect. */
  lemma RollbackRestores(f: Files, ops: seq<Op>, u: string)
    requires Proper(f) && Paired(f) && ValidName(u) && AllOnCommitted(f, ops)
    requires forall op :: op in ops ==> Acceptable(op) && !op.Commit?
    ensures var r := RolledBack(Run(f, ops));
            Pending(r, u) == Effective(r, u) == Effective(f, u)
  {
    hide Proper, RolledBack, Run, Acceptable;
    var g := Run(f, ops);
    RunPaired(f, ops);
    EffectiveOnlyAtCommit(f, ops, u);
    RolledBackAt(g, u);
  }

  /** A change of a user keeps the names paired exactly when that user is in effect. */
  lemma ChangePairsIff(f: Files, u: string, password: string, record: string)
    requires Proper(f) && Paired(f) && ValidInput(u, password) && record != "" && Staged(u) in f
    ensures Paired(Changed(f, u, password, record).files) <==> Effective(f, u) != ""
  {
  }

  /** A change leaves every user in effect covered exactly when its input is acceptable or its user is not in effect. */
  lemma ChangeCoversIff(f: Files, u: string, password: string, record: string)
    requires Proper(f) && ValidName(u) && Staged(u) in f
    ensures Covered(Changed(f, u, password, record).files) <==> ValidInput(u, password) || Effective(f, u) == ""
  {
  }

  /** After a refused change of a user in effect, adding that user empties what is in effect, with no commit. */
  lemma RefusedChangeUncovers(f: Files, u: string, short: string, record: string)
    requires Proper(f) && ValidName(u) && |u| <= NAME_MAX && |short| < PASSWORD_MIN && Effective(f, u) != ""
    ensures var r := Changed(f, u, short, record);
            && !r.ok && !Covered(r.files) && Effective(r.files, u) == Effective(f, u)
            && forall password: string :: |password| >= PASSWORD_MIN ==>
                 Effective(Added(r.files, u, password, record, true).files, u) == ""
  {
  }
}
