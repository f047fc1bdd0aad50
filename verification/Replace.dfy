/** String replacement: _strrepl_generic() and strreplall(). */
module Replace {
  import opened Wrappers

  predicate OccursAt(h: string, n: string, i: int) {
    0 <= i && i + |n| <= |h| && h[i..i + |n|] == n
  }

  predicate Contains(h: string, n: string) {
    exists i :: 0 <= i <= |h| && OccursAt(h, n, i)
  }

  /** strstr(h + from, n): the index of the first occurrence at or after `from`. */
  function Find(h: string, n: string, from: nat): (r: Option<nat>)
    requires from <= |h|
    ensures r.Some? ==> from <= r.value && OccursAt(h, n, r.value)
    ensures r.Some? ==> forall j :: from <= j < r.value ==> !OccursAt(h, n, j)
    ensures r.None? ==> forall j :: from <= j <= |h| ==> !OccursAt(h, n, j)
    decreases |h| - from
  {
    if OccursAt(h, n, from) then Some(from)
    else if from == |h| then None
    else Find(h, n, from + 1)
  }

  /** Left-to-right, non-overlapping substitution on the original text. */
  function ReplaceAll(h: string, n: string, r: string): string
    requires n != []
    decreases |h|
  {
    match Find(h, n, 0)
    case None => h
    case Some(i) => h[..i] + r + ReplaceAll(h[i + |n|..], n, r)
  }

  /** One replacement at or after `start`; the result fills the computed length exactly. */
  method ReplaceOne(h: string, n: string, r: string, start: nat) returns (res: Option<string>, next: nat)
    requires start <= |h|
    ensures res.Some? <==> n != [] && Find(h, n, start).Some?
    ensures res.Some? ==>
              var i := Find(h, n, start).value;
              res.value == h[..i] + r + h[i + |n|..] && next == i + |r| && |res.value| == |h| - |n| + |r|
    ensures res.None? ==> next == start
  {
    next := start;
    var occurrence := Find(h, n, start);
    if occurrence.None? || h == [] || n == [] {
      return None, start;
    }
    var i := occurrence.value;
    var s := h[..i];
    s := s + r;
    s := s + h[i + |n|..];
    res, next := Some(s), i + |r|;
  }

  lemma OccursShift(done: string, tail: string, n: string, k: int)
    requires 0 <= k
    ensures OccursAt(done + tail, n, |done| + k) <==> OccursAt(tail, n, k)
  {
  }

  /** Looking for a needle from an offset is looking for it in the rest. */
  lemma {:induction false} FindSuffix(done: string, tail: string, n: string, k: nat)
    requires k <= |tail|
    ensures Find(done + tail, n, |done| + k) ==
            match Find(tail, n, k) case None => None case Some(i) => Some(|done| + i)
    decreases |tail| - k
  {
    hide OccursAt;
    OccursShift(done, tail, n, k);
    if !OccursAt(tail, n, k) && k < |tail| {
      FindSuffix(done, tail, n, k + 1);
    }
  }

  /** The text before `start` is finished; what is left is the substitution on the rest. */
  ghost predicate Progress(h: string, n: string, r: string, prev: string, start: nat)
    requires n != []
  {
    start <= |prev| && ReplaceAll(h, n, r) == prev[..start] + ReplaceAll(prev[start..], n, r)
  }

  lemma ReplaceAllStep(h: string, n: string, r: string)
    requires n != []
    ensures var f := Find(h, n, 0);
            ReplaceAll(h, n, r) == if f.None? then h else h[..f.value] + r + ReplaceAll(h[f.value + |n|..], n, r)
  {
    hide Find, OccursAt;
  }

  lemma ProgressStep(h: string, n: string, r: string, prev: string, start: nat)
    requires n != [] && Progress(h, n, r, prev, start)
    ensures var f := Find(prev, n, start);
            if f.None? then ReplaceAll(h, n, r) == prev
            else Progress(h, n, r, prev[..f.value] + r + prev[f.value + |n|..], f.value + |r|)
  {
    hide Find, OccursAt, ReplaceAll;
    var done, tail := prev[..start], prev[start..];
    assert prev == done + tail;
    FindSuffix(done, tail, n, 0);
    ReplaceAllStep(tail, n, r);
    var f := Find(tail, n, 0);
    if f.Some? {
      FindInside(tail, n, 0);
      var i := f.value;
      SpliceSplit(done, tail, i, |n|, r);
      var rest := ReplaceAll(tail[i + |n|..], n, r);
      assert done + (tail[..i] + r + rest) == done + (tail[..i] + r) + rest;
    }
  }

  lemma SpliceSplit(done: string, tail: string, i: nat, m: nat, r: string)
    requires i + m <= |tail|
    ensures var prev := done + tail;
            var s := prev[..|done| + i] + r + prev[|done| + i + m..];
            var next := |done| + i + |r|;
            s[..next] == done + (tail[..i] + r) && s[next..] == tail[i + m..]
  {
  }

  /** strreplall(): the loop equals substitution on the original, and yields nothing iff there is nothing to replace. */
  method StrReplAll(h: string, n: string, r: string) returns (res: Option<string>)
    ensures res.None? <==> n == [] || !Contains(h, n)
    ensures res.Some? ==> res.value == ReplaceAll(h, n, r)
  {
    hide ReplaceAll, OccursAt, Progress;
    var prev, start: nat := h, 0;
    var changed := false;
    if n != [] { ProgressStart(h, n, r); }
    while true
      invariant n != [] ==> start <= |prev| && Progress(h, n, r, prev, start)
      invariant changed ==> n != [] && Contains(h, n)
      invariant !changed ==> prev == h && start == 0
      decreases |prev| - start
    {
      if n != [] { ProgressStep(h, n, r, prev, start); }
      var one, next := ReplaceOne(prev, n, r, start);
      if one.None? { break; }
      FindInside(prev, n, start);
      prev, start, changed := one.value, next, true;
    }
    res := if changed then Some(prev) else None;
  }

  lemma ProgressStart(h: string, n: string, r: string)
    requires n != []
    ensures Progress(h, n, r, h, 0)
  {
  }

  lemma FindInside(h: string, n: string, from: nat)
    requires from <= |h| && Find(h, n, from).Some?
    ensures from <= Find(h, n, from).value <= |h| - |n| && Contains(h, n)
  {
  }

  // ---- What is left in the text ----

  /** A name between double at-signs, as in @@uid@@. */
  function Variable(k: string): (m: string)
    ensures |m| == |k| + 4
  {
    "@@" + k + "@@"
  }

  lemma OccursChar(h: string, n: string, i: int, j: int)
    requires OccursAt(h, n, i) && 0 <= j < |n|
    ensures i + j < |h| && h[i + j] == n[j]
  {
  }

  /** Text that cannot help to spell the variable: not empty, no pair of at-signs, none at its end, no part of "@k". */
  predicate Mild(r: string, k: string) {
    r != [] && r[|r| - 1] != '@' && !Contains(r, "@@") && !Contains("@" + k, r)
  }

  lemma PairOccurs(r: string, j: nat)
    requires j + 1 < |r| && r[j] == r[j + 1] == '@'
    ensures Contains(r, "@@")
  {
    assert r[j..j + 2] == "@@";
    assert OccursAt(r, "@@", j);
  }

  /** Put in where an at-sign was, mild text makes no occurrence of the variable that was not there before. */
  lemma InsertMakesNone(a: string, r: string, b: string, k: string, i: int)
    requires Mild(r, k) && OccursAt(a + r + b, Variable(k), i)
    ensures OccursAt(a + "@", Variable(k), i) || OccursAt(b, Variable(k), i - |a| - |r|)
  {
    hide Contains;
    var m, t, p := Variable(k), a + r + b, |a| - i;
    if i + |m| <= |a| {
      assert t[i..i + |m|] == (a + "@")[i..i + |m|];
    } else if |a| + |r| <= i {
      assert t[i..i + |m|] == b[i - |a| - |r|..i - |a| - |r| + |m|];
    } else if p + |r| <= |m| - 2 && 1 <= p {
      InsidePart(a, r, b, k, i);
    } else if p == |m| - 1 {
      OccursChar(t, m, i, |m| - 1);
      assert t[i..i + |m|] == (a + "@")[i..i + |m|];
    } else {
      NoPairFits(a, r, b, k, i);
    }
  }

  lemma InsidePart(a: string, r: string, b: string, k: string, i: int)
    requires var p := |a| - i; OccursAt(a + r + b, Variable(k), i) && 1 <= p && p + |r| <= |k| + 2
    ensures Contains("@" + k, r)
  {
    var m, t, p := Variable(k), a + r + b, |a| - i;
    forall j | 0 <= j < |r| ensures r[j] == ("@" + k)[p - 1 + j] { OccursChar(t, m, i, p + j); }
    assert ("@" + k)[p - 1..p - 1 + |r|] == r;
    assert OccursAt("@" + k, r, p - 1);
  }

  /** Any other overlap would put the opening or closing pair, or an at-sign at the end, into the text. */
  lemma NoPairFits(a: string, r: string, b: string, k: string, i: int)
    requires var p := |a| - i; OccursAt(a + r + b, Variable(k), i) && p < |k| + 3 && -p < |r| && r != []
                               && (p < 1 || p + |r| > |k| + 2)
    ensures r[|r| - 1] == '@' || Contains(r, "@@")
  {
    hide Contains;
    var m, t, p := Variable(k), a + r + b, |a| - i;
    OccursChar(t, m, i, 0);
    OccursChar(t, m, i, 1);
    OccursChar(t, m, i, |m| - 2);
    OccursChar(t, m, i, |m| - 1);
    assert m[0] == m[1] == m[|m| - 2] == m[|m| - 1] == '@';
    if p < 1 {
      if 1 - p < |r| { PairOccurs(r, -p); }
    } else {
      if |m| - 1 - p < |r| { PairOccurs(r, |m| - 2 - p); }
    }
  }

  lemma {:induction false} ReplaceMakesNone(h: string, n: string, r: string, k: string)
    requires n != [] && n[0] == '@' && Mild(r, k) && !Contains(h, Variable(k))
    ensures !Contains(ReplaceAll(h, n, r), Variable(k))
    decreases |h|
  {
    hide Contains, ReplaceAll, Mild;
    ReplaceAllStep(h, n, r);
    var f := Find(h, n, 0);
    if f.Some? {
      FindInside(h, n, 0);
      var a, b := h[..f.value], h[f.value + |n|..];
      OccursChar(h, n, f.value, 0);
      assert h[..f.value + 1] == a + "@";
      PartsContainNone(h, f.value + 1, f.value + |n|, Variable(k));
      ReplaceMakesNone(b, n, r, k);
      JoinContainsNone(a, r, ReplaceAll(b, n, r), k);
    }
  }

  lemma PartsContainNone(h: string, i: nat, j: nat, m: string)
    requires i <= j <= |h| && !Contains(h, m)
    ensures !Contains(h[..i], m) && !Contains(h[j..], m)
  {
    forall x | OccursAt(h[..i], m, x) ensures false {
      assert h[x..x + |m|] == h[..i][x..x + |m|];
      assert OccursAt(h, m, x);
    }
    forall x | OccursAt(h[j..], m, x) ensures false {
      assert h[j + x..j + x + |m|] == h[j..][x..x + |m|];
      assert OccursAt(h, m, j + x);
    }
  }

  lemma JoinContainsNone(a: string, r: string, b: string, k: string)
    requires Mild(r, k) && !Contains(a + "@", Variable(k)) && !Contains(b, Variable(k))
    ensures !Contains(a + r + b, Variable(k))
  {
    forall i | OccursAt(a + r + b, Variable(k), i) ensures false {
      InsertMakesNone(a, r, b, k, i);
    }
  }

  /** Replacing a variable by mild text leaves no occurrence of it. */
  lemma {:induction false} ReplaceRemovesAll(h: string, r: string, k: string)
    requires Mild(r, k)
    ensures !Contains(ReplaceAll(h, Variable(k), r), Variable(k))
    decreases |h|
  {
    hide Contains, ReplaceAll, Mild;
    var n := Variable(k);
    ReplaceAllStep(h, n, r);
    var f := Find(h, n, 0);
    if f.Some? {
      FindInside(h, n, 0);
      var a, b := h[..f.value], h[f.value + |n|..];
      OccursChar(h, n, f.value, 0);
      assert h[..f.value + 1] == a + "@";
      FirstHasNoneBefore(h, n, f.value);
      ReplaceRemovesAll(b, r, k);
      JoinContainsNone(a, r, ReplaceAll(b, n, r), k);
    } else {
      FindNone(h, n);
    }
  }

  lemma FirstHasNoneBefore(h: string, n: string, i: nat)
    requires |n| > 1 && Find(h, n, 0) == Some(i)
    ensures i < |h| && !Contains(h[..i + 1], n)
  {
    var g := h[..i + 1];
    forall x | OccursAt(g, n, x) ensures false {
      assert h[x..x + |n|] == g[x..x + |n|];
      assert OccursAt(h, n, x);
    }
  }

  lemma FindNone(h: string, n: string)
    ensures Find(h, n, 0).None? <==> !Contains(h, n)
  {
  }
}
