/** The "did you mean" suggestion of the checker: an edit-distance table against edit scripts. */
module EditDistance {

  import opened Common

  /** One step of an edit, taken from left to right. `Swap` exchanges two neighbours once and for all:
      what it produces is not edited again. */
  datatype Edit = Keep | Insert(c: char) | Delete | Replace(c: char) | Swap

  function StepCost(step: Edit): nat {
    if step.Keep? then 0 else 1
  }

  function Cost(script: seq<Edit>): nat {
    if script == [] then 0 else Cost(script[..|script| - 1]) + StepCost(script[|script| - 1])
  }

  /** How much of the string a step uses up. */
  function Uses(step: Edit): nat {
    if step.Insert? then 0 else if step.Swap? then 2 else 1
  }

  /** What a step makes of what it uses. */
  function Makes(step: Edit, t: string): string
    requires |t| == Uses(step)
  {
    match step
    case Keep => t
    case Insert(c) => [c]
    case Delete => ""
    case Replace(c) => [c]
    case Swap => [t[1], t[0]]
  }

  /** What the script makes of exactly `a`; its last step accounts for the ends of both strings. */
  function Apply(script: seq<Edit>, a: string): Option<string> {
    if script == [] then
      if a == "" then Some("") else None
    else
      var step := script[|script| - 1];
      var rest := |a| - Uses(step);
      if rest < 0 then None else Extend(Apply(script[..|script| - 1], a[..rest]), Makes(step, a[rest..]))
  }

  function Extend(o: Option<string>, s: string): Option<string> {
    if o.Some? then Some(o.value + s) else None
  }

  ghost predicate Edits(script: seq<Edit>, a: string, b: string) {
    Apply(script, a) == Some(b)
  }

  /** The specification: `d` is the least cost over all scripts from `a` to `b`. */
  ghost predicate Least(a: string, b: string, d: nat) {
    && (exists script :: Edits(script, a, b) && Cost(script) == d)
    && (forall script :: Edits(script, a, b) ==> d <= Cost(script))
  }

  // ------------------------------------------------------------ the recurrence

  function Min(x: nat, y: nat): nat {
    if y < x then y else x
  }

  predicate Crossed(a: string, b: string, i: nat, j: nat)
    requires i <= |a| && j <= |b|
  {
    i > 1 && j > 1 && a[i - 1] == b[j - 2] && a[i - 2] == b[j - 1]
  }

  /** The entry of the table for the first `i` bytes of `a` and the first `j` of `b`. */
  function Entry(a: string, b: string, i: nat, j: nat): nat
    requires i <= |a| && j <= |b|
  {
    if i == 0 then j
    else if j == 0 then i
    else
      Combine(Entry(a, b, i - 1, j), Entry(a, b, i, j - 1), Entry(a, b, i - 1, j - 1), a[i - 1] == b[j - 1],
              if Crossed(a, b, i, j) then Some(Entry(a, b, i - 2, j - 2)) else None)
  }

  /** Delete, insert, keep or replace, and if two neighbours are crossed, swap. */
  function Combine(up: nat, left: nat, diagonal: nat, same: bool, crossed: Option<nat>): nat {
    var v := Min(Min(up + 1, left + 1), diagonal + if same then 0 else 1);
    if crossed.Some? then Min(v, crossed.value + 1) else v
  }

  /** A step takes `t` off the end of what is left of `a` and puts `p` at the end of the result. */
  predicate Takes(step: Edit, t: string, p: string) {
    |t| == Uses(step) && p == Makes(step, t)
  }

  lemma LastStep(script: seq<Edit>, a: string, b: string) returns (t: string, p: string)
    requires script != [] && Edits(script, a, b)
    ensures |t| <= |a| && |p| <= |b| && a[|a| - |t|..] == t && b[|b| - |p|..] == p
    ensures Takes(script[|script| - 1], t, p)
    ensures Edits(script[..|script| - 1], a[..|a| - |t|], b[..|b| - |p|])
  {
    var step := script[|script| - 1];
    var rest := |a| - Uses(step);
    hide Makes;
    t := a[rest..];
    p := Makes(step, t);
    var before := Apply(script[..|script| - 1], a[..rest]).value;
    assert b == before + p;
  }

  lemma AddStep(init: seq<Edit>, step: Edit, a: string, t: string, b: string, p: string)
    requires Edits(init, a, b) && Takes(step, t, p)
    ensures Edits(init + [step], a + t, b + p)
    ensures Cost(init + [step]) == Cost(init) + StepCost(step)
  {
    var script := init + [step];
    hide Makes;
    assert script[..|script| - 1] == init;
    assert (a + t)[..|a|] == a && (a + t)[|a|..] == t;
  }

  /** The recurrence, unfolded once. */
  lemma EntryAt(a: string, b: string, i: nat, j: nat)
    requires i <= |a| && j <= |b|
    ensures i == 0 ==> Entry(a, b, i, j) == j
    ensures j == 0 ==> Entry(a, b, i, j) == i
    ensures Crossed(a, b, i, j) ==> i > 1 && j > 1
    ensures i > 0 && j > 0 ==>
      var crossed := if Crossed(a, b, i, j) then Some(Entry(a, b, i - 2, j - 2)) else None;
      var same := a[i - 1] == b[j - 1];
      Entry(a, b, i, j)
        == Combine(Entry(a, b, i - 1, j), Entry(a, b, i, j - 1), Entry(a, b, i - 1, j - 1), same, crossed)
  {
    hide Combine;
  }

  /** The entry is at most what any last step makes of an earlier entry. */
  lemma AtMost(a: string, b: string, i: nat, j: nat, step: Edit, t: string, p: string)
    requires |t| <= i <= |a| && |p| <= j <= |b| && Takes(step, t, p)
    requires a[i - |t|..i] == t && b[j - |p|..j] == p
    ensures Entry(a, b, i, j) <= Entry(a, b, i - |t|, j - |p|) + StepCost(step)
  {
    hide Entry;
    EntryAt(a, b, i, j);
    EntryAt(a, b, i - |t|, j - |p|);
    if step.Swap? {
      assert t[0] == a[i - 2] && t[1] == a[i - 1] && p[0] == b[j - 2] && p[1] == b[j - 1];
    } else if step.Keep? {
      assert t[0] == a[i - 1] && p[0] == b[j - 1];
    }
  }

  /** Which steps can come last, seen from the two ends. */
  lemma LastSteps(a: string, b: string, i: nat, j: nat)
    requires i <= |a| && j <= |b|
    ensures i > 0 ==> Takes(Delete, a[i - 1..i], b[j..j])
    ensures j > 0 ==> Takes(Insert(b[j - 1]), a[i..i], b[j - 1..j])
    ensures i > 0 && j > 0 ==>
      Takes(if a[i - 1] == b[j - 1] then Keep else Replace(b[j - 1]), a[i - 1..i], b[j - 1..j])
    ensures Crossed(a, b, i, j) ==> i > 1 && j > 1 && Takes(Swap, a[i - 2..i], b[j - 2..j])
  {
  }

  /** And it is what one of them makes of one. */
  lemma Attained(a: string, b: string, i: nat, j: nat) returns (step: Edit, k: nat, l: nat)
    requires i <= |a| && j <= |b| && i + j > 0
    ensures k <= i && l <= j && k + l < i + j && Takes(step, a[k..i], b[l..j])
    ensures Entry(a, b, i, j) == Entry(a, b, k, l) + StepCost(step)
  {
    hide Entry, Takes, Crossed;
    EntryAt(a, b, i, j);
    LastSteps(a, b, i, j);
    if i == 0 || (j > 0 && Entry(a, b, i, j) == Entry(a, b, i, j - 1) + 1) {
      step, k, l := Insert(b[j - 1]), i, j - 1;
      EntryAt(a, b, k, l);
    } else if j == 0 || Entry(a, b, i, j) == Entry(a, b, i - 1, j) + 1 {
      step, k, l := Delete, i - 1, j;
      EntryAt(a, b, k, l);
    } else if Crossed(a, b, i, j) && Entry(a, b, i, j) == Entry(a, b, i - 2, j - 2) + 1 {
      step, k, l := Swap, i - 2, j - 2;
    } else {
      step, k, l := if a[i - 1] == b[j - 1] then Keep else Replace(b[j - 1]), i - 1, j - 1;
    }
  }

  /** No script is cheaper than the entry. */
  lemma {:induction false} NoCheaper(script: seq<Edit>, a: string, b: string, i: nat, j: nat)
    requires i <= |a| && j <= |b| && Edits(script, a[..i], b[..j])
    ensures Entry(a, b, i, j) <= Cost(script)
    decreases |script|
  {
    if script != [] {
      hide Apply, Entry, Takes, Makes;
      var t, p := LastStep(script, a[..i], b[..j]);
      var k, l := i - |t|, j - |p|;
      assert a[..i][..k] == a[..k] && a[..i][k..] == a[k..i];
      assert b[..j][..l] == b[..l] && b[..j][l..] == b[l..j];
      NoCheaper(script[..|script| - 1], a, b, k, l);
      AtMost(a, b, i, j, script[|script| - 1], t, p);
    }
  }

  lemma EmptyScript(a: string, b: string)
    ensures Edits([], a[..0], b[..0]) && Cost([]) == Entry(a, b, 0, 0) == 0
  {
  }

  /** Some script costs just the entry. */
  lemma {:induction false} SomeScript(a: string, b: string, i: nat, j: nat) returns (script: seq<Edit>)
    requires i <= |a| && j <= |b|
    ensures Edits(script, a[..i], b[..j]) && Cost(script) == Entry(a, b, i, j)
    decreases i + j
  {
    hide Edits, Cost, Entry, Takes;
    if i + j == 0 {
      script := [];
      EmptyScript(a, b);
    } else {
      var step, k, l := Attained(a, b, i, j);
      var init := SomeScript(a, b, k, l);
      assert a[..i] == a[..k] + a[k..i] && b[..j] == b[..l] + b[l..j];
      AddStep(init, step, a[..k], a[k..i], b[..l], b[l..j]);
      script := init + [step];
    }
  }

  lemma WholeStrings(script: seq<Edit>, a: string, b: string)
    ensures Edits(script, a, b) <==> Edits(script, a[..|a|], b[..|b|])
  {
    hide Apply;
    assert a[..|a|] == a && b[..|b|] == b;
  }

  /** The recurrence computes the least cost over all scripts, for all strings. */
  lemma EntryIsLeast(a: string, b: string)
    ensures Least(a, b, Entry(a, b, |a|, |b|))
  {
    hide Edits, Entry, Cost;
    var best := SomeScript(a, b, |a|, |b|);
    WholeStrings(best, a, b);
    forall script | Edits(script, a, b) ensures Entry(a, b, |a|, |b|) <= Cost(script) {
      WholeStrings(script, a, b);
      NoCheaper(script, a, b, |a|, |b|);
    }
  }

  /** There is at most one least cost. */
  lemma LeastIsUnique(a: string, b: string, d: nat, d': nat)
    requires Least(a, b, d) && Least(a, b, d')
    ensures d == d'
  {
  }

  // ------------------------------------------------------------ the table

  const NAME_MAX := 63
  const TOO_FAR := 99

  ghost predicate Comparable(a: string, b: string) {
    1 <= |a| <= NAME_MAX && 1 <= |b| <= NAME_MAX
  }

  lemma EdgeEntries(a: string, b: string)
    ensures forall i :: 0 <= i <= |a| ==> Entry(a, b, i, 0) == i
    ensures forall j :: 0 <= j <= |b| ==> Entry(a, b, 0, j) == j
  {
  }

  /** The edges of the table: `i` deletions or `j` insertions. */
  method Edges(la: nat, lb: nat) returns (d: array2<nat>)
    requires la <= NAME_MAX && lb <= NAME_MAX
    ensures fresh(d) && d.Length0 == d.Length1 == 64
    ensures forall i :: 0 <= i <= la ==> d[i, 0] == i
    ensures forall j :: 0 <= j <= lb ==> d[0, j] == j
  {
    d := new nat[64, 64];
    for i := 0 to la + 1
      invariant forall k :: 0 <= k < i ==> d[k, 0] == k
    {
      d[i, 0] := i;
    }
    for j := 0 to lb + 1
      invariant forall i :: 0 <= i <= la ==> d[i, 0] == i
      invariant forall k :: 0 <= k < j ==> d[0, k] == k
    {
      d[0, j] := j;
    }
  }

  /** The inner loop: one row from the two rows before it. */
  method Row(a: string, b: string, d: array2<nat>, i: nat)
    requires d.Length0 == d.Length1 == 64
    requires 1 <= i <= |a| <= NAME_MAX && |b| <= NAME_MAX
    requires forall k, l :: 0 <= k < i && 0 <= l <= |b| ==> d[k, l] == Entry(a, b, k, l)
    requires d[i, 0] == Entry(a, b, i, 0)
    modifies d
    ensures forall k, l :: 0 <= k <= i && 0 <= l <= |b| ==> d[k, l] == Entry(a, b, k, l)
    ensures forall k :: i < k <= |a| ==> d[k, 0] == old(d[k, 0])
  {
    hide Entry;
    for j := 1 to |b| + 1
      invariant forall k, l :: 0 <= k < i && 0 <= l <= |b| ==> d[k, l] == Entry(a, b, k, l)
      invariant forall l :: 0 <= l < j ==> d[i, l] == Entry(a, b, i, l)
      invariant forall k :: i < k <= |a| ==> d[k, 0] == old(d[k, 0])
    {
      d[i, j] := OneEntry(a, b, d, i, j);
    }
  }

  /** The body of the inner loop: the least of up to four neighbours. */
  method OneEntry(a: string, b: string, d: array2<nat>, i: nat, j: nat) returns (v: nat)
    requires d.Length0 == d.Length1 == 64
    requires 1 <= i <= |a| <= NAME_MAX && 1 <= j <= |b| <= NAME_MAX
    requires forall k, l :: 0 <= k < i && 0 <= l <= |b| ==> d[k, l] == Entry(a, b, k, l)
    requires forall l :: 0 <= l < j ==> d[i, l] == Entry(a, b, i, l)
    ensures v == Entry(a, b, i, j)
  {
    hide Entry;
    EntryAt(a, b, i, j);
    var cost := if a[i - 1] == b[j - 1] then 0 else 1;
    v := d[i - 1, j] + 1;
    if d[i, j - 1] + 1 < v {
      v := d[i, j - 1] + 1;
    }
    if d[i - 1, j - 1] + cost < v {
      v := d[i - 1, j - 1] + cost;
    }
    if i > 1 && j > 1 && a[i - 1] == b[j - 2] && a[i - 2] == b[j - 1] && d[i - 2, j - 2] + 1 < v {
      v := d[i - 2, j - 2] + 1;
    }
  }

  /** The least cost of an edit script, for names of 1 to 63 bytes; others count as too far. */
  method Distance(a: string, b: string) returns (dist: nat)
    ensures if Comparable(a, b) then Least(a, b, dist) && dist == Entry(a, b, |a|, |b|) else dist == TOO_FAR
  {
    var la, lb := |a|, |b|;
    if la == 0 || lb == 0 || la > NAME_MAX || lb > NAME_MAX {
      return TOO_FAR;
    }
    EntryIsLeast(a, b);
    EdgeEntries(a, b);
    hide Entry, Least;
    var d := Edges(la, lb);
    for i := 1 to la + 1
      invariant forall k, l :: 0 <= k < i && 0 <= l <= lb ==> d[k, l] == Entry(a, b, k, l)
      invariant forall k :: i <= k <= la ==> d[k, 0] == k
    {
      Row(a, b, d, i);
    }
    return d[la, lb];
  }

  // ------------------------------------------------------------ the suggestion

  /** How far apart two names count as being. */
  ghost function Apart(a: string, b: string): nat {
    if Comparable(a, b) then Entry(a, b, |a|, |b|) else TOO_FAR
  }

  function Limit(name: string): nat {
    if |name| >= 6 then 2 else 1
  }

  /** Candidate `k` is the earliest of the least distance, counting the first `n` candidates. */
  ghost predicate Earliest(name: string, cands: seq<Option<string>>, n: nat, k: nat)
    requires n <= |cands|
  {
    && k < n && cands[k].Some?
    && forall i :: 0 <= i < n && cands[i].Some? ==>
         Apart(name, cands[k].value) <= Apart(name, cands[i].value) - if i < k then 1 else 0
  }

  /** Some script of cost `n` or less edits one name, of 1 to 63 bytes, into the other. */
  ghost predicate Reachable(a: string, b: string, n: nat) {
    Comparable(a, b) && exists script :: Edits(script, a, b) && Cost(script) <= n
  }

  /** Being at most `n` apart is being reachable by a script of that cost, for any limit below "too far". */
  lemma ApartReachable(a: string, b: string, n: nat)
    requires n < TOO_FAR
    ensures Apart(a, b) <= n <==> Reachable(a, b, n)
  {
    if Comparable(a, b) {
      EntryIsLeast(a, b);
      hide Edits, Cost, Entry;
    }
  }

  /** Some candidate is reachable within `n`. */
  ghost predicate AnyReachable(name: string, cands: seq<Option<string>>, n: nat) {
    exists i :: 0 <= i < |cands| && cands[i].Some? && Reachable(name, cands[i].value, n)
  }

  lemma LimitReachable(name: string, cands: seq<Option<string>>)
    ensures AnyReachable(name, cands, Limit(name))
      <==> exists i :: 0 <= i < |cands| && cands[i].Some? && Apart(name, cands[i].value) <= Limit(name)
  {
    hide Reachable, Apart;
    forall i | 0 <= i < |cands| && cands[i].Some?
      ensures Apart(name, cands[i].value) <= Limit(name) <==> Reachable(name, cands[i].value, Limit(name))
    {
      ApartReachable(name, cands[i].value, Limit(name));
    }
  }

  /** The earliest candidate of least distance if that is within the limit, and otherwise none. Names under
      three bytes get none, those of three to five a candidate one edit away, longer ones up to two. */
  method Suggest(name: string, cands: seq<Option<string>>) returns (pick: Option<nat>)
    ensures pick.None? <==>
        |name| < 3 || forall i :: 0 <= i < |cands| && cands[i].Some? ==> Apart(name, cands[i].value) > Limit(name)
    ensures pick.Some? ==>
        Earliest(name, cands, |cands|, pick.value) && Apart(name, cands[pick.value].value) <= Limit(name)
    ensures |name| < 3 ==> pick.None?
    ensures 3 <= |name| <= 5 ==> (pick.Some? <==> AnyReachable(name, cands, 1))
    ensures 6 <= |name| ==> (pick.Some? <==> AnyReachable(name, cands, 2))
    ensures pick.Some? ==> Reachable(name, cands[pick.value].value, if |name| <= 5 then 1 else 2)
  {
    LimitReachable(name, cands);
    hide AnyReachable, Reachable, Entry, Least;
    if |name| < 3 {
      return None;
    }
    var limit := if |name| >= 6 then 2 else 1;
    var best := limit + 1;
    pick := None;
    for i := 0 to |cands|
      invariant best <= limit + 1 && (pick.None? <==> best == limit + 1)
      invariant forall k :: 0 <= k < i && cands[k].Some? ==> best <= Apart(name, cands[k].value)
      invariant pick.Some? ==> Earliest(name, cands, i, pick.value) && best == Apart(name, cands[pick.value].value)
    {
      if cands[i].Some? {
        var dist := Distance(name, cands[i].value);
        if dist < best {
          best := dist;
          pick := Some(i);
        }
      }
    }
    if best > limit {
      pick := None;
    } else {
      ApartReachable(name, cands[pick.value].value, Limit(name));
    }
  }

  /** A suggestion is never further than two edits, each script counted: it can be checked by hand. */
  lemma SuggestionIsClose(name: string, cand: string)
    requires |name| >= 3 && Apart(name, cand) <= Limit(name)
    ensures exists script :: Edits(script, name, cand) && Cost(script) <= 2
  {
    EntryIsLeast(name, cand);
  }
}
