/** The sequential parts of CmdStats: sorting the names, creating one tracker
    per name, the initial settle check and one render-and-prune pass. */
module CmdStats {

  import opened Wrappers
  import opened Tracker

  // ---------------------------------------------------------------------
  // Name order (sort.Strings)

  /** Go's `<=` on strings, lexicographic by character. */
  predicate StringLessEq(a: string, b: string)
    decreases |a|
  {
    if |a| == 0 then true
    else if |b| == 0 then false
    else if a[0] != b[0] then a[0] < b[0]
    else StringLessEq(a[1..], b[1..])
  }

  lemma {:induction false} StringLessEqTotal(a: string, b: string)
    ensures StringLessEq(a, b) || StringLessEq(b, a)
    decreases |a|
  {
    if |a| > 0 && |b| > 0 && a[0] == b[0] {
      StringLessEqTotal(a[1..], b[1..]);
    }
  }

  lemma {:induction false} StringLessEqTransitive(a: string, b: string, c: string)
    requires StringLessEq(a, b) && StringLessEq(b, c)
    ensures StringLessEq(a, c)
    decreases |a|
  {
    if |a| > 0 && |b| > 0 && |c| > 0 && a[0] == b[0] && b[0] == c[0] {
      StringLessEqTransitive(a[1..], b[1..], c[1..]);
    }
  }

  predicate SortedNames(s: seq<string>)
  {
    forall i :: 0 <= i < |s| - 1 ==> StringLessEq(s[i], s[i + 1])
  }

  /** Sorted names are ordered pairwise, not only neighbour by neighbour. */
  lemma {:induction false} SortedNamesPairwise(s: seq<string>, i: nat, j: nat)
    requires SortedNames(s) && i <= j < |s|
    ensures StringLessEq(s[i], s[j])
    decreases j - i
  {
    if i == j {
      StringLessEqReflexive(s[i]);
    } else {
      SortedNamesPairwise(s, i + 1, j);
      StringLessEqTransitive(s[i], s[i + 1], s[j]);
    }
  }

  lemma {:induction false} StringLessEqReflexive(a: string)
    ensures StringLessEq(a, a)
    decreases |a|
  {
    if |a| > 0 {
      StringLessEqReflexive(a[1..]);
    }
  }

  function Insert(x: string, s: seq<string>): (r: seq<string>)
    requires SortedNames(s)
    ensures SortedNames(r)
    ensures multiset(r) == multiset(s) + multiset{x}
    ensures |r| == |s| + 1 && (r[0] == x || (|s| > 0 && r[0] == s[0]))
  {
    if s == [] then [x]
    else if StringLessEq(x, s[0]) then [x] + s
    else
      StringLessEqTotal(x, s[0]);
      assert s == [s[0]] + s[1..];
      [s[0]] + Insert(x, s[1..])
  }

  /** The names in ascending order, each as often as it was given. */
  function SortStrings(names: seq<string>): (r: seq<string>)
    ensures SortedNames(r)
    ensures multiset(r) == multiset(names)
  {
    if names == [] then []
    else
      assert names == [names[0]] + names[1..];
      Insert(names[0], SortStrings(names[1..]))
  }

  // ---------------------------------------------------------------------
  // Start-up

  /** Sorts the names and creates one fresh tracker per name, in that order. */
  method Launch(names: seq<string>) returns (cStats: seq<ContainerStats>)
    ensures |cStats| == |names|
    ensures forall i :: 0 <= i < |cStats| ==> cStats[i].name == SortStrings(names)[i]
    ensures forall i :: 0 <= i < |cStats| ==> fresh(cStats[i]) && cStats[i].State() == Initial && cStats[i].Valid()
    ensures forall i, j :: 0 <= i < j < |cStats| ==> cStats[i] != cStats[j]
  {
    var sorted := SortStrings(names);
    assert |sorted| == |names| by {
      assert |multiset(sorted)| == |multiset(names)|;
    }
    cStats := [];
    for i := 0 to |sorted|
      invariant |cStats| == i
      invariant forall k :: 0 <= k < i ==> cStats[k].name == sorted[k]
      invariant forall k :: 0 <= k < i ==> fresh(cStats[k]) && cStats[k].State() == Initial && cStats[k].Valid()
      invariant forall k, l :: 0 <= k < l < i ==> cStats[k] != cStats[l]
    {
      var s := new ContainerStats(sorted[i]);
      cStats := cStats + [s];
    }
  }

  // ---------------------------------------------------------------------
  // Initial settle

  /** One tracker as the settle check sees it: its name and its error, if any. */
  type Status = (string, Option<Error>)

  function Statuses(cs: seq<ContainerStats>): (ps: seq<Status>)
    reads cs
    ensures |ps| == |cs|
    ensures forall i :: 0 <= i < |cs| ==> ps[i] == (cs[i].name, cs[i].err)
  {
    if cs == [] then [] else [(cs[0].name, cs[0].err)] + Statuses(cs[1..])
  }

  /** `name: err`, as `%s: %v` prints it. */
  function Entry(name: string, e: Error): string
  {
    name + ": " + e.message
  }

  /** The entries of the failed trackers, in the trackers' order. */
  function Failures(ps: seq<Status>): seq<string>
  {
    if ps == [] then []
    else (if ps[0].1.Some? then [Entry(ps[0].0, ps[0].1.value)] else []) + Failures(ps[1..])
  }

  /** strings.Join. */
  function Join(parts: seq<string>, sep: string): string
  {
    if |parts| == 0 then ""
    else if |parts| == 1 then parts[0]
    else parts[0] + sep + Join(parts[1..], sep)
  }

  /** The settle check's verdict: no error, or one error whose message joins
      the failure entries with ", ". */
  function SettleOutcome(ps: seq<Status>): Option<Error>
  {
    var errs := Failures(ps);
    if |errs| > 0 then Some(Error(Join(errs, ", "))) else None
  }

  /** Listing is order-preserving: the entries of a concatenation are the
      entries of the first part followed by those of the second. */
  lemma {:induction false} FailuresAppend(a: seq<Status>, b: seq<Status>)
    ensures Failures(a + b) == Failures(a) + Failures(b)
    decreases |a|
  {
    if a == [] {
      assert a + b == b;
    } else {
      assert (a + b)[0] == a[0];
      assert (a + b)[1..] == a[1..] + b;
      FailuresAppend(a[1..], b);
    }
  }

  /** The settle check fails exactly when some tracker has an error. */
  lemma {:induction false} SettleFailsIff(ps: seq<Status>)
    ensures SettleOutcome(ps).Some? <==> exists i :: 0 <= i < |ps| && ps[i].1.Some?
    decreases |ps|
  {
    if ps != [] {
      SettleFailsIff(ps[1..]);
      if ps[0].1.None? {
        if exists i :: 0 <= i < |ps| && ps[i].1.Some? {
          var i :| 0 <= i < |ps| && ps[i].1.Some?;
          assert ps[1..][i - 1].1.Some?;
        }
      }
    }
  }

  /** Every failed tracker is listed, and only failed trackers are. */
  lemma {:induction false} FailuresListExactly(ps: seq<Status>)
    ensures forall i :: 0 <= i < |ps| && ps[i].1.Some? ==> Entry(ps[i].0, ps[i].1.value) in Failures(ps)
    ensures forall m :: m in Failures(ps) ==>
      exists i :: 0 <= i < |ps| && ps[i].1.Some? && m == Entry(ps[i].0, ps[i].1.value)
    decreases |ps|
  {
    if ps != [] {
      FailuresListExactly(ps[1..]);
      forall m | m in Failures(ps)
        ensures exists i :: 0 <= i < |ps| && ps[i].1.Some? && m == Entry(ps[i].0, ps[i].1.value)
      {
        if m in Failures(ps[1..]) {
          var i :| 0 <= i < |ps[1..]| && ps[1..][i].1.Some? && m == Entry(ps[1..][i].0, ps[1..][i].1.value);
          assert ps[i + 1] == ps[1..][i];
        }
      }
      forall i | 0 <= i < |ps| && ps[i].1.Some?
        ensures Entry(ps[i].0, ps[i].1.value) in Failures(ps)
      {
        if i > 0 {
          assert ps[1..][i - 1] == ps[i];
        }
      }
    }
  }

  /** With exactly one failed tracker the error names that tracker alone. */
  lemma SingleFailureMessage(ps: seq<Status>, i: nat)
    requires i < |ps| && ps[i].1.Some?
    requires forall j :: 0 <= j < |ps| && j != i ==> ps[j].1.None?
    ensures SettleOutcome(ps) == Some(Error(Entry(ps[i].0, ps[i].1.value)))
  {
    NoFailures(ps[..i]);
    NoFailures(ps[i + 1..]);
    assert ps == ps[..i] + [ps[i]] + ps[i + 1..];
    FailuresAppend(ps[..i] + [ps[i]], ps[i + 1..]);
    FailuresAppend(ps[..i], [ps[i]]);
  }

  lemma {:induction false} NoFailures(ps: seq<Status>)
    requires forall j :: 0 <= j < |ps| ==> ps[j].1.None?
    ensures Failures(ps) == []
    decreases |ps|
  {
    if ps != [] {
      NoFailures(ps[1..]);
    }
  }

  /** The settle check: after the pause, scan the trackers in order, collect
      `name: err` for each failed one, and fail when the list is not empty. */
  method SettleCheck(cStats: seq<ContainerStats>) returns (r: Option<Error>)
    ensures r == SettleOutcome(Statuses(cStats))
  {
    ghost var ps := Statuses(cStats);
    var errs: seq<string> := [];
    var i := 0;
    while i < |cStats|
      invariant 0 <= i <= |cStats|
      invariant errs == Failures(ps[..i])
    {
      var c := cStats[i];
      if c.err.Some? {
        errs := errs + [Entry(c.name, c.err.value)];
      }
      assert ps[..i + 1] == ps[..i] + [ps[i]];
      FailuresAppend(ps[..i], [ps[i]]);
      i := i + 1;
    }
    assert ps[..i] == ps;
    if |errs| > 0 {
      r := Some(Error(Join(errs, ", ")));
    } else {
      r := None;
    }
  }

  // ---------------------------------------------------------------------
  // Pruning

  /** The elements of `s` whose `dead` flag is false, in their order. */
  function Survivors<T>(s: seq<T>, dead: seq<bool>): (r: seq<T>)
    requires |dead| == |s|
    ensures |r| <= |s|
  {
    if s == [] then []
    else (if dead[0] then [] else [s[0]]) + Survivors(s[1..], dead[1..])
  }

  lemma {:induction false} SurvivorsAppend<T>(a: seq<T>, da: seq<bool>, b: seq<T>, db: seq<bool>)
    requires |da| == |a| && |db| == |b|
    ensures Survivors(a + b, da + db) == Survivors(a, da) + Survivors(b, db)
    decreases |a|
  {
    if a == [] {
      assert a + b == b && da + db == db;
    } else {
      assert (a + b)[0] == a[0] && (da + db)[0] == da[0];
      assert (a + b)[1..] == a[1..] + b && (da + db)[1..] == da[1..] + db;
      SurvivorsAppend(a[1..], da[1..], b, db);
    }
  }

  lemma {:induction false} SurvivorsNoneDead<T>(s: seq<T>, dead: seq<bool>)
    requires |dead| == |s|
    requires forall k :: 0 <= k < |dead| ==> !dead[k]
    ensures Survivors(s, dead) == s
    decreases |s|
  {
    if s != [] {
      SurvivorsNoneDead(s[1..], dead[1..]);
    }
  }

  /** Which positions of a sequence of length `n` are listed in `indices`. */
  function MaskOf(n: nat, indices: seq<nat>): (m: seq<bool>)
    ensures |m| == n
  {
    seq(n, k => k in indices)
  }

  /** Removing position `i`, the dead one right after a stretch of live ones
      starting at `lo`, moves the boundary of the processed suffix to `lo`. */
  lemma SpliceStep<T>(s: seq<T>, dead: seq<bool>, lo: nat, i: nat)
    requires |dead| == |s| && lo <= i < |s| && dead[i]
    requires forall k :: lo <= k < i ==> !dead[k]
    ensures s[..i] + Survivors(s[i + 1..], dead[i + 1..]) == s[..lo] + Survivors(s[lo..], dead[lo..])
  {
    assert s[lo..] == s[lo..i] + [s[i]] + s[i + 1..];
    assert dead[lo..] == dead[lo..i] + [dead[i]] + dead[i + 1..];
    SurvivorsAppend(s[lo..i] + [s[i]], dead[lo..i] + [dead[i]], s[i + 1..], dead[i + 1..]);
    SurvivorsAppend(s[lo..i], dead[lo..i], [s[i]], [dead[i]]);
    SurvivorsNoneDead(s[lo..i], dead[lo..i]);
    assert s[..i] == s[..lo] + s[lo..i];
  }

  /** The splice loop: remove the listed positions, taking the largest first
      so that the smaller ones still point at the same elements. */
  method RemoveIndices<T>(s: seq<T>, toRemove: seq<nat>) returns (r: seq<T>)
    requires forall k :: 0 <= k < |toRemove| ==> toRemove[k] < |s|
    requires forall k, l :: 0 <= k < l < |toRemove| ==> toRemove[k] < toRemove[l]
    ensures r == Survivors(s, MaskOf(|s|, toRemove))
  {
    ghost var dead := MaskOf(|s|, toRemove);
    r := s;
    var j := |toRemove| - 1;
    ghost var lo: nat := if j >= 0 then toRemove[j] + 1 else 0;
    SurvivorsNoneDead(s[lo..], dead[lo..]);
    assert s == s[..lo] + s[lo..];
    while j >= 0
      invariant -1 <= j < |toRemove|
      invariant lo == if j >= 0 then toRemove[j] + 1 else 0
      invariant lo <= |s|
      invariant r == s[..lo] + Survivors(s[lo..], dead[lo..])
    {
      var i := toRemove[j];
      ghost var lo': nat := if j >= 1 then toRemove[j - 1] + 1 else 0;
      assert r[..i] == s[..i];
      assert r[i + 1..] == Survivors(s[lo..], dead[lo..]);
      r := r[..i] + r[i + 1..];
      SpliceStep(s, dead, lo', i);
      j := j - 1;
      lo := lo';
    }
    assert s[..0] == [] && s[0..] == s && dead[0..] == dead;
  }

  /** The trackers still alive: those whose Display succeeds, in order. */
  function Alive(cs: seq<ContainerStats>): seq<ContainerStats>
    reads cs
  {
    if cs == [] then []
    else (if cs[0].err.None? then [cs[0]] else []) + Alive(cs[1..])
  }

  /** The rows one pass writes: one per live tracker, in order. */
  function RowsOf(cs: seq<ContainerStats>): seq<Line>
    reads cs
  {
    if cs == [] then []
    else (if cs[0].err.None? then [cs[0].CurrentRow()] else []) + RowsOf(cs[1..])
  }

  lemma {:induction false} SurvivorsOfDeadTrackers(cs: seq<ContainerStats>, dead: seq<bool>)
    requires |dead| == |cs|
    requires forall k :: 0 <= k < |cs| ==> (dead[k] <==> cs[k].err.Some?)
    ensures Survivors(cs, dead) == Alive(cs)
    decreases |cs|
  {
    if cs != [] {
      SurvivorsOfDeadTrackers(cs[1..], dead[1..]);
    }
  }

  lemma {:induction false} RowsOfAppend(a: seq<ContainerStats>, b: seq<ContainerStats>)
    ensures RowsOf(a + b) == RowsOf(a) + RowsOf(b)
    decreases |a|
  {
    if a == [] {
      assert a + b == b;
    } else {
      assert (a + b)[0] == a[0];
      assert (a + b)[1..] == a[1..] + b;
      RowsOfAppend(a[1..], b);
    }
  }

  /** The survivors are exactly the trackers without an error. */
  lemma {:induction false} AliveExactly(cs: seq<ContainerStats>)
    ensures forall c :: c in Alive(cs) <==> c in cs && c.err.None?
    decreases |cs|
  {
    if cs != [] {
      AliveExactly(cs[1..]);
      assert cs == [cs[0]] + cs[1..];
    }
  }

  /** Pruning keeps the survivors' relative order. */
  lemma {:induction false} AliveAppend(a: seq<ContainerStats>, b: seq<ContainerStats>)
    ensures Alive(a + b) == Alive(a) + Alive(b)
    decreases |a|
  {
    if a == [] {
      assert a + b == b;
    } else {
      assert (a + b)[0] == a[0];
      assert (a + b)[1..] == a[1..] + b;
      AliveAppend(a[1..], b);
    }
  }

  /** A pass writes exactly one row per survivor, in the survivors' order. */
  lemma {:induction false} OneRowPerSurvivor(cs: seq<ContainerStats>)
    ensures |RowsOf(cs)| == |Alive(cs)|
    ensures forall k :: 0 <= k < |Alive(cs)| ==> RowsOf(cs)[k] == Alive(cs)[k].CurrentRow()
    decreases |cs|
  {
    if cs != [] {
      OneRowPerSurvivor(cs[1..]);
    }
  }

  /** One tick of the render loop: the header, Display on every tracker in
      order (remembering the positions that failed), the failed trackers
      spliced out, and whether the list is now empty (CmdStats then returns). */
  method RenderPass(cStats: seq<ContainerStats>, w: seq<Line>)
    returns (remaining: seq<ContainerStats>, out: seq<Line>, finished: bool)
    ensures out == w + [Header] + RowsOf(cStats)
    ensures remaining == Alive(cStats)
    ensures finished <==> |remaining| == 0
  {
    out := w + [Header];
    var toRemove: seq<nat> := [];
    var i := 0;
    while i < |cStats|
      invariant 0 <= i <= |cStats|
      invariant out == w + [Header] + RowsOf(cStats[..i])
      invariant forall k :: 0 <= k < |toRemove| ==> toRemove[k] < i
      invariant forall k, l :: 0 <= k < l < |toRemove| ==> toRemove[k] < toRemove[l]
      invariant forall k :: 0 <= k < i ==> (k in toRemove <==> cStats[k].err.Some?)
    {
      var e;
      out, e := cStats[i].Display(out);
      if e.Some? {
        toRemove := toRemove + [i];
      }
      assert cStats[..i + 1] == cStats[..i] + [cStats[i]];
      RowsOfAppend(cStats[..i], [cStats[i]]);
      i := i + 1;
    }
    assert cStats[..i] == cStats;
    remaining := RemoveIndices(cStats, toRemove);
    SurvivorsOfDeadTrackers(cStats, MaskOf(|cStats|, toRemove));
    finished := |remaining| == 0;
  }
}
